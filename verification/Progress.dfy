/** Whether main and the merge process come to their ends: which moves rule that out, how long main can take over
    a message, and when each request has one merge. */
module Progress {
  import opened CText
  import opened StoreModel
  import opened Background

  // ---------------------------------------------------------------- when nothing moves

  lemma MovesAsCtl(sys: Sys)
    requires H.Inv(sys.ctl)
    ensures Step(sys, Main).Some? <==> H.MainCanMove(sys.ctl) && sys.ctl.main != H.Waiting
    ensures sys.ctl.main == H.Waiting <==> Step(sys, Receive(BackCmd)).Some?
    ensures forall cmd :: Step(sys, Receive(cmd)).Some? ==> sys.ctl.main == H.Waiting
    ensures Step(sys, Merger).Some? <==> H.MergeNext(sys.ctl).Some?
  {
    hide H.Inv, Worked;
  }

  /** Nothing can move exactly when both processes have ended, or one is blocked for good. */
  lemma NothingMovesIff(store: State, moves: seq<Move>)
    requires Possible(store, moves)
    ensures var sys := After(store, moves);
            (forall m :: Step(sys, m).None?) <==> H.Finished(sys.ctl) || H.Stuck(sys.ctl)
  {
    hide H.Inv, Step, Facts, H.MainCanMove, H.Stuck, H.Finished, H.MergeNext;
    var sys := After(store, moves);
    Reachable(store, moves);
    MovesAsCtl(sys);
    WaitingCanMove(sys.ctl);
    H.StopsIff(sys.ctl);
    if H.Finished(sys.ctl) || H.Stuck(sys.ctl) {
      forall m ensures Step(sys, m).None? {
        if m.Receive? {
          assert Step(sys, Receive(m.cmd)) == Step(sys, m);
        }
      }
    } else {
      assert Step(sys, Main).Some? || Step(sys, Receive(BackCmd)).Some? || Step(sys, Merger).Some?;
    }
  }

  lemma WaitingCanMove(c: H.Ctl)
    ensures c.main == H.Waiting ==> H.MainCanMove(c)
  {
  }

  // ---------------------------------------------------------------- moves after which there is no proper end

  /** The merge process leaves before main has passed its last p2: the unit that p2 waits for is undone. */
  predicate LeavesFirst(sys: Sys, m: Move) {
    m == Merger && sys.ctl.merge == H.Dispatch && sys.ctl.got == Some(H.BYE) && sys.ctl.main == H.AwaitRead
  }

  /** Main leaves, and its token with it, before the merge process has taken the token. */
  predicate TakesTokenAlong(sys: Sys, m: Move) {
    m == Main && sys.ctl.main == H.Leaving && sys.ctl.merge == H.TakeToken
  }

  predicate Fatal(sys: Sys, m: Move) {
    Starves(sys, m) || LeavesFirst(sys, m) || TakesTokenAlong(sys, m)
  }

  predicate NeverFatal(store: State, moves: seq<Move>)
    requires Possible(store, moves)
  {
    moves == [] ||
    (NeverFatal(store, moves[..|moves| - 1])
     && !Fatal(After(store, moves[..|moves| - 1]), moves[|moves| - 1]))
  }

  /** The states such moves lead to. */
  predicate Doomed(c: H.Ctl, n: nat) {
    || Starving(c, n)
    || (H.MergeGone(c) && c.main !in {H.Leaving, H.Ended})
    || (c.main == H.Ended && c.merge == H.TakeToken && c.s0 == 0)
  }

  predicate FatalStep(c: H.Ctl, a: H.Action, n: nat) {
    || (a == H.MergeStep && c.merge == H.TakeToken && c.s0 > 0 && c.fromV && n < 2)
    || (a == H.MergeStep && c.merge == H.Dispatch && c.got == Some(H.BYE) && c.main == H.AwaitRead)
    || (a == H.MainStep && c.main == H.Leaving && c.merge == H.TakeToken)
  }

  lemma FatalAsCtl(sys: Sys, m: Move)
    requires Step(sys, m).Some?
    ensures Fatal(sys, m) <==> FatalStep(sys.ctl, ActionOf(sys, m), |sys.store.tables|)
  {
    hide Worked;
  }

  lemma MainDoomed(c: H.Ctl, n: nat)
    requires H.Inv(c) && H.MainNext(c).Some?
    ensures Doomed(H.MainNext(c).value, n) <==> Doomed(c, n) || FatalStep(c, H.MainStep, n)
  {
  }

  lemma MergeDoomed(c: H.Ctl, n: nat, n': nat)
    requires H.Inv(c) && Facts(c, n) && H.MergeNext(c).Some? && TableStep(c, H.MergeStep, n, n')
    ensures Doomed(H.MergeNext(c).value, n') <==> Doomed(c, n) || FatalStep(c, H.MergeStep, n)
  {
  }

  lemma StepDoomed(c: H.Ctl, a: H.Action, n: nat, n': nat)
    requires H.Inv(c) && Facts(c, n) && H.Step(c, a).Some? && TableStep(c, a, n, n')
    ensures Doomed(H.Step(c, a).value, n') <==> Doomed(c, n) || FatalStep(c, a, n)
  {
    hide H.MainNext, H.MergeNext, Facts;
    if a == H.MainStep {
      MainDoomed(c, n);
    } else if a == H.MergeStep {
      MergeDoomed(c, n, n');
    }
  }

  /** What a state shows of the moves that led to it. */
  lemma {:induction false} NeverFatalIff(store: State, moves: seq<Move>)
    requires Possible(store, moves)
    ensures NeverFatal(store, moves) <==> !Doomed(After(store, moves).ctl, |After(store, moves).store.tables|)
  {
    if moves != [] {
      hide H.Inv, H.Step, Facts, Step, Doomed, TableStep, Fatal, FatalStep;
      var front, m := moves[..|moves| - 1], moves[|moves| - 1];
      var sys := After(store, front);
      NeverFatalIff(store, front);
      Reachable(store, front);
      MovesTables(sys, m);
      FatalAsCtl(sys, m);
      StepDoomed(sys.ctl, ActionOf(sys, m), |sys.store.tables|, |After(store, moves).store.tables|);
    }
  }

  lemma DoomedFacts(c: H.Ctl, n: nat)
    ensures H.Stuck(c) ==> Doomed(c, n)
    ensures H.Finished(c) ==> !Doomed(c, n)
  {
  }

  lemma {:induction false} FatalStays(store: State, moves: seq<Move>, more: seq<Move>)
    requires Possible(store, moves) && Possible(store, moves + more) && !NeverFatal(store, moves)
    ensures !NeverFatal(store, moves + more)
  {
    if more == [] {
      assert moves + more == moves;
    } else {
      assert (moves + more)[..|moves + more| - 1] == moves + more[..|more| - 1];
      FatalStays(store, moves, more[..|more| - 1]);
    }
  }

  // ---------------------------------------------------------------- how many steps a message can take

  function MainLeft(c: H.Ctl): nat {
    match c.main
    case Working => 44
    case Counting => 43
    case SetLength => if c.msg == H.MERGE then 42 else 13
    case SetData => if c.msg == H.MERGE then 41 else 12
    case Release => if c.msg == H.MERGE then 40 else 11
    case AwaitRead => if c.msg == H.MERGE then 15 else 2
    case AwaitMerge => 14
    case Leaving => 1
    case _ => 0
  }

  /** What a round of the merge process takes with n tables left for it. */
  function RoundsLeft(c: H.Ctl, n: nat): nat {
    if c.msg == H.MERGE then 8 * n else 8
  }

  function MergeLeft(c: H.Ctl, n: nat): int {
    match c.merge
    case TakeToken => if c.s0 > 0 then RoundsLeft(c, n) else 0
    case Acknowledge => RoundsLeft(c, n) - 1
    case TestLength => RoundsLeft(c, n) - 2
    case CopyData => RoundsLeft(c, n) - 3
    case ClearLength => RoundsLeft(c, n) - 4
    case Dispatch => RoundsLeft(c, n) - 5
    case Merging => RoundsLeft(c, n) - 6
    case ReleaseToken => RoundsLeft(c, n) + 1
    case _ => 0
  }

  /** No more steps than these can follow before the next message. */
  function StepsLeft(c: H.Ctl, n: nat): int {
    MainLeft(c) + MergeLeft(c, n)
  }

  lemma StepsLeftBounds(c: H.Ctl, n: nat)
    requires H.Inv(c) && Facts(c, n)
    ensures 0 <= StepsLeft(c, n) <= 44
    ensures c.main == H.Waiting ==> StepsLeft(c, n) == 0
  {
  }

  lemma MainStepsFall(c: H.Ctl, n: nat)
    requires H.Inv(c) && Facts(c, n) && H.MainNext(c).Some?
    ensures StepsLeft(H.MainNext(c).value, n) < StepsLeft(c, n)
  {
  }

  lemma MergeStepsFall(c: H.Ctl, n: nat, n': nat)
    requires H.Inv(c) && Facts(c, n) && H.MergeNext(c).Some? && TableStep(c, H.MergeStep, n, n')
    ensures StepsLeft(H.MergeNext(c).value, n') < StepsLeft(c, n)
  {
    hide H.UndoLaw, H.ReadAccount, H.TokenAccount, H.NoSelfTake;
  }

  /** Each step but the arrival of a message brings the next wait for one, or the end, nearer, retaken tokens
      included: a second merge for the same request finds one table less. */
  lemma StepsFall(c: H.Ctl, a: H.Action, n: nat, n': nat)
    requires H.Inv(c) && Facts(c, n) && H.Step(c, a).Some? && TableStep(c, a, n, n') && !a.Receive?
    ensures StepsLeft(H.Step(c, a).value, n') < StepsLeft(c, n)
  {
    hide H.MainNext, H.MergeNext;
    if a == H.MainStep {
      MainStepsFall(c, n);
    } else if a == H.MergeStep {
      MergeStepsFall(c, n, n');
    }
  }

  predicate NoMessages(moves: seq<Move>) {
    forall i :: 0 <= i < |moves| ==> !moves[i].Receive?
  }

  function Left(sys: Sys): int {
    StepsLeft(sys.ctl, |sys.store.tables|)
  }

  /** In every interleaving at most 44 steps of the two processes pass between messages. */
  lemma {:induction false} AnswersInTime(store: State, moves: seq<Move>, more: seq<Move>)
    requires Possible(store, moves) && Possible(store, moves + more) && NoMessages(more)
    ensures |more| + Left(After(store, moves + more)) <= Left(After(store, moves)) <= 44
    ensures |more| <= 44
  {
    hide H.Inv, H.Step, Facts, Step, StepsLeft, TableStep, ActionOf;
    Reachable(store, moves);
    Reachable(store, moves + more);
    StepsLeftBounds(After(store, moves).ctl, |After(store, moves).store.tables|);
    StepsLeftBounds(After(store, moves + more).ctl, |After(store, moves + more).store.tables|);
    if more == [] {
      assert moves + more == moves;
    } else {
      var front, m := more[..|more| - 1], more[|more| - 1];
      assert (moves + more)[..|moves + more| - 1] == moves + front;
      var sys, sys' := After(store, moves + front), After(store, moves + more);
      AnswersInTime(store, moves, front);
      Reachable(store, moves + front);
      MovesTables(sys, m);
      NotReceived(sys, m);
      StepsFall(sys.ctl, ActionOf(sys, m), |sys.store.tables|, |sys'.store.tables|);
    }
  }

  lemma NotReceived(sys: Sys, m: Move)
    ensures ActionOf(sys, m).Receive? <==> m.Receive?
  {
  }

  // ---------------------------------------------------------------- a proper end is within reach

  /** A move that is possible and does no harm: whoever holds the token goes on, but the merge process lets main
      pass its last p2 first, and leaves a token it put back to main. */
  function SafeMove(c: H.Ctl): Move {
    if c.main == H.Waiting then Receive(BackCmd)
    else if H.MainHolds(c) || H.MergeGone(c) then Main
    else if c.merge == H.Dispatch && c.got == Some(H.BYE) && c.main == H.AwaitRead then Main
    else if c.merge == H.TakeToken && c.fromV then Main
    else Merger
  }

  lemma SafeMovePossible(c: H.Ctl, n: nat)
    requires H.Inv(c) && !Doomed(c, n) && !H.Finished(c) && c.main != H.Waiting
    ensures SafeMove(c) == Main ==> H.MainCanMove(c)
    ensures SafeMove(c) == Merger ==> H.MergeNext(c).Some?
    ensures SafeMove(c).Main? || SafeMove(c).Merger?
    ensures SafeMove(c) == Main && c.main == H.Leaving ==> c.merge != H.TakeToken
    ensures SafeMove(c) == Merger ==>
              !(c.merge == H.Dispatch && c.got == Some(H.BYE) && c.main == H.AwaitRead)
              && !(c.merge == H.TakeToken && c.fromV)
  {
  }

  lemma SafeStep(sys: Sys)
    requires H.Inv(sys.ctl) && !Doomed(sys.ctl, |sys.store.tables|) && !H.Finished(sys.ctl)
    ensures Step(sys, SafeMove(sys.ctl)).Some? && !Fatal(sys, SafeMove(sys.ctl))
    ensures SafeMove(sys.ctl).Receive? <==> sys.ctl.main == H.Waiting
  {
    hide H.Inv, Doomed, H.Finished, H.MainCanMove, H.MergeNext, Step, SafeMove;
    MovesAsCtl(sys);
    WaitingMove(sys.ctl);
    if sys.ctl.main != H.Waiting {
      SafeMovePossible(sys.ctl, |sys.store.tables|);
    }
  }

  lemma WaitingMove(c: H.Ctl)
    ensures c.main == H.Waiting ==> SafeMove(c) == Receive(BackCmd)
  {
  }

  lemma Extend(store: State, moves: seq<Move>, m: Move)
    requires Possible(store, moves) && Step(After(store, moves), m).Some?
    ensures Possible(store, moves + [m]) && After(store, moves + [m]) == Step(After(store, moves), m).value
    ensures NeverFatal(store, moves + [m]) <==> NeverFatal(store, moves) && !Fatal(After(store, moves), m)
  {
    hide Fatal, Step;
    assert (moves + [m])[..|moves|] == moves;
  }

  lemma LeavingStays(sys: Sys, m: Move)
    requires H.Inv(sys.ctl) && Step(sys, m).Some?
    ensures sys.ctl.leaving ==> Step(sys, m).value.ctl.leaving && sys.ctl.main != H.Waiting
    ensures m == Receive(BackCmd) ==> Step(sys, m).value.ctl.leaving
  {
    hide Worked;
  }

  /** Both processes have left by their own last statements. */
  predicate Ended(c: H.Ctl) {
    c.main == H.Ended && c.merge == H.Exited
  }

  lemma {:induction false} FatalTakesIncluded(store: State, moves: seq<Move>)
    requires Possible(store, moves) && NeverFatal(store, moves)
    ensures NoStarvedTake(store, moves)
  {
    if moves != [] {
      FatalTakesIncluded(store, moves[..|moves| - 1]);
    }
  }

  /** No run in which the merge process is killed gets to an end of both. */
  lemma FinishedIsEnded(store: State, moves: seq<Move>)
    requires Possible(store, moves)
    ensures H.Finished(After(store, moves).ctl) <==> Ended(After(store, moves).ctl)
    ensures NeverFatal(store, moves) ==> After(store, moves).ctl.merge != H.Killed
  {
    hide Possible, After, NeverFatal, NoStarvedTake, Doomed;
    var sys := After(store, moves);
    NeverFatalIff(store, moves);
    DoomedFacts(sys.ctl, |sys.store.tables|);
    if NeverFatal(store, moves) {
      FatalTakesIncluded(store, moves);
      StarvedTakeIff(store, moves);
    }
  }

  /** After a run without fatal moves both processes can still come to their ends. */
  lemma {:induction false} Completion(store: State, moves: seq<Move>) returns (more: seq<Move>)
    requires Possible(store, moves) && NeverFatal(store, moves)
    ensures Possible(store, moves + more) && Ended(After(store, moves + more).ctl)
    decreases if After(store, moves).ctl.leaving then 0 else 1,
              if After(store, moves).ctl.main == H.Waiting then 0 else 1, Left(After(store, moves))
  {
    hide H.Inv, H.Step, Facts, Step, StepsLeft, TableStep, ActionOf, Doomed, H.Finished, SafeMove, Fatal, Possible,
         After, NeverFatal;
    var sys := After(store, moves);
    Reachable(store, moves);
    NeverFatalIff(store, moves);
    StepsLeftBounds(sys.ctl, |sys.store.tables|);
    if H.Finished(sys.ctl) {
      more := [];
      assert moves + more == moves;
      FinishedIsEnded(store, moves);
    } else {
      var m := SafeMove(sys.ctl);
      SafeStep(sys);
      Extend(store, moves, m);
      LeavingStays(sys, m);
      WaitingMove(sys.ctl);
      MovesTables(sys, m);
      NotReceived(sys, m);
      if !m.Receive? {
        StepsFall(sys.ctl, ActionOf(sys, m), |sys.store.tables|, |Step(sys, m).value.store.tables|);
      }
      var rest := Completion(store, moves + [m]);
      more := [m] + rest;
      assert moves + more == moves + [m] + rest;
    }
  }

  ghost predicate CanEnd(store: State, moves: seq<Move>) {
    exists more ::
      Possible(store, moves + more) && Ended(After(store, moves + more).ctl)
  }

  /** The exact condition for freedom from deadlock. As long as no fatal move was made, main waits for a message,
      both processes have ended, or one of them can move, and the proper end is within reach; after a fatal move
      it is out of reach for good. */
  lemma EndsIff(store: State, moves: seq<Move>)
    requires Possible(store, moves)
    ensures NeverFatal(store, moves) <==> CanEnd(store, moves)
    ensures NeverFatal(store, moves) ==> After(store, moves).ctl.merge != H.Killed
    ensures NeverFatal(store, moves) && !Ended(After(store, moves).ctl) ==>
              var sys := After(store, moves);
              sys.ctl.main == H.Waiting || Step(sys, Main).Some? || Step(sys, Merger).Some?
  {
    hide H.Stuck, H.Finished, Ended, Step, Doomed, Possible, After, NeverFatal, H.Inv, Facts, H.MainCanMove,
         H.MergeNext;
    var sys := After(store, moves);
    Reachable(store, moves);
    MovesAsCtl(sys);
    H.StopsIff(sys.ctl);
    NeverFatalIff(store, moves);
    DoomedFacts(sys.ctl, |sys.store.tables|);
    FinishedIsEnded(store, moves);
    if NeverFatal(store, moves) {
      var more := Completion(store, moves);
      assert CanEnd(store, moves);
    } else if CanEnd(store, moves) {
      var more :| Possible(store, moves + more) && Ended(After(store, moves + more).ctl);
      FinishedIsEnded(store, moves + more);
      FatalStays(store, moves, more);
      NeverFatalIff(store, moves + more);
      DoomedFacts(After(store, moves + more).ctl, |After(store, moves + more).store.tables|);
    }
  }

  // ---------------------------------------------------------------- when tokens are handed over

  lemma HandedOffFatal(sys: Sys, m: Move)
    requires H.Inv(sys.ctl) && sys.ctl.merge != H.Killed
    requires Step(sys, m).Some? && H.HandedOff(Step(sys, m).value.ctl)
    ensures Fatal(sys, m) <==> LeavesFirst(sys, m)
    ensures LeavesFirst(sys, m) <==>
              Step(sys, m).value.ctl.merge == H.Exited && Step(sys, m).value.ctl.main == H.AwaitRead
    ensures !(sys.ctl.merge == H.Exited && sys.ctl.main == H.AwaitRead)
  {
    hide Worked;
  }

  /** If tokens are handed over there is one way to fail: the merge process leaves before main's last p2. */
  lemma {:induction false} LastMessageOnly(store: State, moves: seq<Move>)
    requires Possible(store, moves) && H.HandedOff(After(store, moves).ctl)
    ensures NeverFatal(store, moves) <==>
              !(After(store, moves).ctl.merge == H.Exited && After(store, moves).ctl.main == H.AwaitRead)
  {
    if moves != [] {
      hide H.Inv, H.Step, Step, Facts, Fatal, LeavesFirst, NoStarvedTake, RoomAtWork, Starving;
      var front, m := moves[..|moves| - 1], moves[|moves| - 1];
      var sys := After(store, front);
      RetakesGrow(sys, m);
      LastMessageOnly(store, front);
      Reachable(store, front);
      HandedOffIsSafe(store, front);
      StarvedTakeIff(store, front);
      HandedOffFatal(sys, m);
    }
  }

  /** Whenever main was in control there had been one merge for each request. */
  predicate OneMergeEach(store: State, moves: seq<Move>)
    requires Possible(store, moves)
  {
    && (H.MainHolds(After(store, moves).ctl) ==> After(store, moves).ctl.merges == After(store, moves).ctl.requests)
    && (moves != [] ==> OneMergeEach(store, moves[..|moves| - 1]))
  }

  /** How many merges and tables there are when each request so far had its one merge: a merge is missing for
      each table above two. */
  predicate Counted(c: H.Ctl, n: nat) {
    && (c.msg == H.MERGE && c.main in {H.AwaitRead, H.AwaitMerge} && c.merge != H.Killed ==>
          c.merges + n == c.requests + 2)
    && (c.merge == H.Killed ==> c.merges == c.requests + 1)
  }

  /** As long as that is so, a token that was taken back is the only one about until main is in control. */
  predicate Single(c: H.Ctl, n: nat) {
    && (H.MainHolds(c) ==> c.merges == c.requests)
    && Counted(c, n)
    && (c.merge != H.Killed && !H.HandedOff(c) ==> H.RetakenOnly(c))
  }

  lemma SingleStep(c: H.Ctl, a: H.Action, n: nat, n': nat)
    requires H.Inv(c) && Facts(c, n) && Single(c, n) && H.Step(c, a).Some? && TableStep(c, a, n, n')
    requires H.MainHolds(H.Step(c, a).value) ==> H.Step(c, a).value.merges == H.Step(c, a).value.requests
    ensures Single(H.Step(c, a).value, n')
  {
    hide H.Inv, H.Step, Facts, Counted, TableStep, H.RetakenOnly;
    var c' := H.Step(c, a).value;
    H.StepKeepsInv(c, a);
    if c'.merge != H.Killed && !H.HandedOff(c') {
      SingleRetaken(c, a);
    }
    SingleCounts(c, a, n, n');
  }

  lemma SingleRetaken(c: H.Ctl, a: H.Action)
    requires H.Inv(c) && H.Step(c, a).Some? && H.Inv(H.Step(c, a).value)
    requires c.merge != H.Killed && !H.HandedOff(c) ==> H.RetakenOnly(c)
    requires H.Step(c, a).value.merge != H.Killed && !H.HandedOff(H.Step(c, a).value)
    requires H.MainHolds(H.Step(c, a).value) ==> H.Step(c, a).value.merges == H.Step(c, a).value.requests
    ensures H.RetakenOnly(H.Step(c, a).value)
  {
    hide H.Inv, H.Step, H.RetakenOnly;
    KilledStays(c, a);
    H.RetakenStep(c, a);
    if H.MainHolds(H.Step(c, a).value) {
      H.InControl(H.Step(c, a).value);
    }
  }

  lemma KilledStays(c: H.Ctl, a: H.Action)
    requires H.Step(c, a).Some?
    ensures c.merge == H.Killed ==> H.Step(c, a).value.merge == H.Killed
  {
  }

  lemma MainCounts(c: H.Ctl, n: nat)
    requires H.Inv(c) && Facts(c, n) && Counted(c, n) && H.MainNext(c).Some?
    requires H.MainHolds(c) ==> c.merges == c.requests
    requires H.MainHolds(H.MainNext(c).value) ==> H.MainNext(c).value.merges == H.MainNext(c).value.requests
    ensures Counted(H.MainNext(c).value, n)
  {
    hide H.Acknowledged, H.ReadAccount, H.TokenAccount, H.NoSelfTake;
  }

  lemma MergeCounts(c: H.Ctl, n: nat, n': nat)
    requires H.Inv(c) && Facts(c, n) && Counted(c, n) && H.MergeNext(c).Some?
    requires TableStep(c, H.MergeStep, n, n')
    ensures Counted(H.MergeNext(c).value, n')
  {
    hide H.Acknowledged, H.ReadAccount, H.TokenAccount, H.NoSelfTake;
  }

  lemma SingleCounts(c: H.Ctl, a: H.Action, n: nat, n': nat)
    requires H.Inv(c) && Facts(c, n) && Counted(c, n) && H.Step(c, a).Some? && TableStep(c, a, n, n')
    requires H.MainHolds(c) ==> c.merges == c.requests
    requires H.MainHolds(H.Step(c, a).value) ==> H.Step(c, a).value.merges == H.Step(c, a).value.requests
    ensures Counted(H.Step(c, a).value, n')
  {
    hide H.MainNext, H.MergeNext, H.Acknowledged, H.ReadAccount, H.TokenAccount, H.NoSelfTake;
    if a == H.MainStep {
      MainCounts(c, n);
    } else if a == H.MergeStep {
      MergeCounts(c, n, n');
    }
  }

  lemma {:induction false} OneMergeEachKeeps(store: State, moves: seq<Move>)
    requires Possible(store, moves) && OneMergeEach(store, moves)
    ensures Single(After(store, moves).ctl, |After(store, moves).store.tables|)
  {
    if moves != [] {
      hide H.Inv, H.Step, Step, Facts, Single, TableStep;
      var front, m := moves[..|moves| - 1], moves[|moves| - 1];
      var sys := After(store, front);
      OneMergeEachKeeps(store, front);
      Reachable(store, front);
      MovesTables(sys, m);
      SingleStep(sys.ctl, ActionOf(sys, m), |sys.store.tables|, |After(store, moves).store.tables|);
    }
  }

  lemma {:induction false} HandOffMergesOnce(store: State, moves: seq<Move>)
    requires Possible(store, moves) && H.HandedOff(After(store, moves).ctl)
    ensures OneMergeEach(store, moves)
  {
    hide H.Inv, H.Step, Step, Facts;
    Reachable(store, moves);
    HandedOffIsSafe(store, moves);
    StarvedTakeIff(store, moves);
    if H.MainHolds(After(store, moves).ctl) {
      H.InControl(After(store, moves).ctl);
    }
    if moves != [] {
      RetakesGrow(After(store, moves[..|moves| - 1]), moves[|moves| - 1]);
      HandOffMergesOnce(store, moves[..|moves| - 1]);
    }
  }

  /** Each request had its one merge, at every point at which main was in control, exactly if the merge process
      never took back a token of V. */
  lemma OneMergeEachIff(store: State, moves: seq<Move>)
    requires Possible(store, moves) && H.MainHolds(After(store, moves).ctl)
    ensures OneMergeEach(store, moves) <==> H.HandedOff(After(store, moves).ctl)
  {
    hide H.Inv, Step, Facts, OneMergeEach, Possible, After;
    if OneMergeEach(store, moves) {
      OneMergeEachKeeps(store, moves);
    }
    if H.HandedOff(After(store, moves).ctl) {
      HandOffMergesOnce(store, moves);
    }
  }

  // ---------------------------------------------------------------- requests that pass without a merge

  /** How many merges had been done when main last asked for one. */
  function MergesBefore(store: State, moves: seq<Move>): nat
    requires Possible(store, moves)
  {
    if moves == [] then 0
    else if Asks(After(store, moves[..|moves| - 1]), moves[|moves| - 1])
    then After(store, moves[..|moves| - 1]).ctl.merges
    else MergesBefore(store, moves[..|moves| - 1])
  }

  predicate Asks(sys: Sys, m: Move) {
    m == Main && sys.ctl.main == H.Release && sys.ctl.msg == H.MERGE
  }

  /** Main's P returns, and no merge was done since main asked for one. */
  predicate PassesUnmerged(sys: Sys, m: Move, before: nat) {
    m == Main && sys.ctl.main == H.AwaitMerge && sys.ctl.s0 > 0 && sys.ctl.merges == before
  }

  /** No request came back without a merge. */
  predicate EachMerged(store: State, moves: seq<Move>)
    requires Possible(store, moves)
  {
    moves == [] ||
    (EachMerged(store, moves[..|moves| - 1])
     && !PassesUnmerged(After(store, moves[..|moves| - 1]), moves[|moves| - 1],
                        MergesBefore(store, moves[..|moves| - 1])))
  }

  /** Every merge since the request took one of its three tables away. */
  predicate Since(c: H.Ctl, n: nat, before: nat) {
    && (c.msg == H.MERGE && c.main in {H.AwaitRead, H.AwaitMerge} && c.merge != H.Killed ==>
          c.merges + n == before + 3)
    && (c.main == H.AwaitMerge && c.merge == H.Killed ==> c.merges > before)
  }

  lemma MainKeepsSince(c: H.Ctl, n: nat, before: nat)
    requires H.Inv(c) && Facts(c, n) && Since(c, n, before) && H.MainNext(c).Some?
    ensures Since(H.MainNext(c).value, n, if c.main == H.Release && c.msg == H.MERGE then c.merges else before)
  {
    hide H.ReadAccount, H.TokenAccount, H.NoSelfTake;
  }

  lemma MergeKeepsSince(c: H.Ctl, n: nat, n': nat, before: nat)
    requires H.Inv(c) && Facts(c, n) && Since(c, n, before) && H.MergeNext(c).Some?
    requires TableStep(c, H.MergeStep, n, n')
    ensures Since(H.MergeNext(c).value, n', before)
  {
    hide H.ReadAccount, H.TokenAccount, H.NoSelfTake;
  }

  lemma StepKeepsSince(c: H.Ctl, a: H.Action, n: nat, n': nat, before: nat)
    requires H.Inv(c) && Facts(c, n) && Since(c, n, before) && H.Step(c, a).Some? && TableStep(c, a, n, n')
    ensures Since(H.Step(c, a).value, n',
                  if a == H.MainStep && c.main == H.Release && c.msg == H.MERGE then c.merges else before)
  {
    hide H.MainNext, H.MergeNext, H.ReadAccount, H.TokenAccount, H.NoSelfTake, H.UndoLaw;
    if a == H.MainStep {
      MainKeepsSince(c, n, before);
    } else if a == H.MergeStep {
      MergeKeepsSince(c, n, n', before);
    }
  }

  lemma AsksAsCtl(sys: Sys, m: Move)
    ensures Asks(sys, m) <==>
              ActionOf(sys, m) == H.MainStep && sys.ctl.main == H.Release && sys.ctl.msg == H.MERGE
  {
  }

  lemma {:induction false} SinceAlong(store: State, moves: seq<Move>)
    requires Possible(store, moves)
    ensures Since(After(store, moves).ctl, |After(store, moves).store.tables|, MergesBefore(store, moves))
  {
    if moves != [] {
      hide H.Inv, H.Step, Step, Facts, Since, TableStep, Asks, ActionOf;
      var front, m := moves[..|moves| - 1], moves[|moves| - 1];
      var sys := After(store, front);
      SinceAlong(store, front);
      Reachable(store, front);
      MovesTables(sys, m);
      AsksAsCtl(sys, m);
      StepKeepsSince(sys.ctl, ActionOf(sys, m), |sys.store.tables|, |After(store, moves).store.tables|,
                     MergesBefore(store, front));
    }
  }

  /** Main's P takes main's own token exactly when no merge was done for the request. */
  lemma OwnTakeIsUnmerged(sys: Sys, m: Move, before: nat)
    requires H.Inv(sys.ctl) && Facts(sys.ctl, |sys.store.tables|) && Since(sys.ctl, |sys.store.tables|, before)
    ensures PassesUnmerged(sys, m, before) <==> TakesOwn(sys, m)
  {
    hide H.ReadAccount, H.TokenAccount, H.NoSelfTake, H.UndoLaw;
  }

  /** The exact condition: no request came back without a merge, in any interleaving, if and only if main's P never
      took back main's own token. */
  lemma {:induction false} EachMergedIff(store: State, moves: seq<Move>)
    requires Possible(store, moves)
    ensures EachMerged(store, moves) <==> After(store, moves).ctl.selfTakes == 0
  {
    if moves != [] {
      hide H.Inv, Step, Facts, Since, PassesUnmerged, TakesOwn;
      var front, m := moves[..|moves| - 1], moves[|moves| - 1];
      var sys := After(store, front);
      EachMergedIff(store, front);
      Reachable(store, front);
      SinceAlong(store, front);
      OwnTake(sys, m);
      OwnTakeIsUnmerged(sys, m, MergesBefore(store, front));
    }
  }
}
