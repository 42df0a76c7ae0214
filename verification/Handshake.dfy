/** The handshake of main and the merge process in main.c and shmem.c, one atomic step for each access to the
    shared segment and for each semop. getsem is called twice with the same key, so both semaphore ids name
    one set of two: P and V share semaphore 0 with write_shm and read_shm. Every semop carries SEM_UNDO: when a
    process ends, the system takes back what its operations did to the semaphores. */
module Handshake {
  import opened CText

  const MERGE := 'M'
  const BYE := 'B'

  /** Where main_process is: waiting for a message, working on the store, counting tables, in write_shm
      (SetLength to AwaitRead), in P(merge_sem), on its way out, or gone. */
  datatype MainPc =
    Waiting | Working | Counting | SetLength | SetData | Release | AwaitRead | AwaitMerge | Leaving | Ended

  /** Where merge_process is: in read_shm (TakeToken to ClearLength), looking at the message, in merge(),
      in V(merge_sem), gone after its last message, or killed by a fault in merge(). */
  datatype MergePc =
    TakeToken | Acknowledge | TestLength | CopyData | ClearLength | Dispatch | Merging | ReleaseToken | Exited | Killed

  /** What the system would add to the two semaphores if the process ended now. */
  datatype Undo = Undo(sem0: int, sem1: int)

  const NONE := Undo(0, 0)

  /** s0, s1: the semaphores; nread, buf: the shared segment; msg, leaving: main's message and whether it is
      ending; got: the merge process's message; mainUndo, mergeUndo: the adjustments of SEM_UNDO. The rest only
      counts: requests for a merge, merges done, tokens of V that the merge process took back, tokens that main
      took back from itself, and whether the token now in s0 is other than one put there by write_shm. */
  datatype Ctl = Ctl(s0: nat, s1: nat, nread: nat, buf: char,
                     main: MainPc, msg: char, leaving: bool, mainUndo: Undo,
                     merge: MergePc, got: Option<char>, mergeUndo: Undo,
                     requests: nat, merges: nat, retakes: nat, selfTakes: nat, fromV: bool)

  const START := Ctl(0, 0, 0, '\0', Waiting, BYE, false, NONE, TakeToken, None, NONE, 0, 0, 0, 0, false)

  /** Who moves. Receive: a message arrives for main, BACK or another. Work and Count: main's work on the
      store ends, and it does or does not count the tables; the count does or does not ask for a merge.
      Kill: merge() faults. */
  datatype Action = Receive(back: bool) | Work(counts: bool) | Count(request: bool) | MainStep | MergeStep | Kill

  predicate MainHolds(c: Ctl) {
    c.main in {Waiting, Working, Counting, SetLength, SetData, Release}
  }

  predicate MergeHolds(c: Ctl) {
    c.merge !in {TakeToken, Exited, Killed}
  }

  predicate MergeGone(c: Ctl) {
    c.merge in {Exited, Killed}
  }

  // ---------------------------------------------------------------- steps

  /** A semaphore after the system has undone a process's operations; it stops at 0. */
  function Undone(s: nat, adjust: int): nat {
    if s + adjust < 0 then 0 else s + adjust
  }

  function MainNext(c: Ctl): Option<Ctl> {
    match c.main
    case SetLength => Some(c.(nread := 1, main := SetData))
    case SetData => Some(c.(buf := c.msg, main := Release))
    case Release =>
      Some(c.(s0 := c.s0 + 1, mainUndo := c.mainUndo.(sem0 := c.mainUndo.sem0 - 1), fromV := false,
              main := AwaitRead, requests := if c.msg == MERGE then c.requests + 1 else c.requests))
    case AwaitRead =>
      if c.s1 == 0 then None
      else Some(c.(s1 := c.s1 - 1, mainUndo := c.mainUndo.(sem1 := c.mainUndo.sem1 + 1),
                   main := if c.msg == MERGE then AwaitMerge else Leaving))
    case AwaitMerge =>
      if c.s0 == 0 then None
      else
        var c' := c.(s0 := c.s0 - 1, mainUndo := c.mainUndo.(sem0 := c.mainUndo.sem0 + 1),
                     selfTakes := if c.fromV then c.selfTakes else c.selfTakes + 1);
        Some(if c.leaving then c'.(main := SetLength, msg := BYE) else c'.(main := Waiting))
    case Leaving =>
      Some(c.(s0 := Undone(c.s0, c.mainUndo.sem0), s1 := Undone(c.s1, c.mainUndo.sem1), mainUndo := NONE,
              main := Ended))
    case _ => None
  }

  /** The merge process is gone: its operations are undone. */
  function Gone(c: Ctl, pc: MergePc): Ctl {
    c.(s0 := Undone(c.s0, c.mergeUndo.sem0), s1 := Undone(c.s1, c.mergeUndo.sem1), mergeUndo := NONE,
       fromV := true, merge := pc)
  }

  function MergeNext(c: Ctl): Option<Ctl> {
    match c.merge
    case TakeToken =>
      if c.s0 == 0 then None
      else Some(c.(s0 := c.s0 - 1, mergeUndo := c.mergeUndo.(sem0 := c.mergeUndo.sem0 + 1), merge := Acknowledge,
                   retakes := if c.fromV then c.retakes + 1 else c.retakes))
    case Acknowledge =>
      Some(c.(s1 := c.s1 + 1, mergeUndo := c.mergeUndo.(sem1 := c.mergeUndo.sem1 - 1), merge := TestLength))
    case TestLength => Some(c.(merge := if c.nread > 0 then CopyData else Dispatch))
    case CopyData => Some(c.(got := Some(c.buf), merge := ClearLength))
    case ClearLength => Some(c.(nread := 0, merge := Dispatch))
    case Dispatch =>
      Some(if c.got == Some(MERGE) then c.(merge := Merging)
           else if c.got == Some(BYE) then Gone(c, Exited) else c.(merge := TakeToken))
    case Merging => Some(c.(merges := c.merges + 1, merge := ReleaseToken))
    case ReleaseToken =>
      Some(c.(s0 := c.s0 + 1, mergeUndo := c.mergeUndo.(sem0 := c.mergeUndo.sem0 - 1), fromV := true,
              merge := TakeToken))
    case _ => None
  }

  /** One step, or None when the process that should move is blocked or elsewhere. */
  function Step(c: Ctl, a: Action): Option<Ctl> {
    match a
    case Receive(back) => if c.main == Waiting then Some(c.(main := Working, leaving := back)) else None
    case Work(counts) =>
      if c.main == Working then Some(c.(main := if counts || c.leaving then Counting else Waiting)) else None
    case Count(request) =>
      if c.main != Counting then None
      else if request then Some(c.(main := SetLength, msg := MERGE))
      else if c.leaving then Some(c.(main := SetLength, msg := BYE))
      else Some(c.(main := Waiting))
    case MainStep => MainNext(c)
    case MergeStep => MergeNext(c)
    case Kill => if c.merge == Merging then Some(Gone(c, Killed)) else None
  }

  predicate Possible(run: seq<Action>)
    decreases |run|, 0
  {
    run == [] || (Possible(run[..|run| - 1]) && Step(After(run[..|run| - 1]), run[|run| - 1]).Some?)
  }

  /** The state a run leads to; a run is any interleaving of steps that were possible. */
  function After(run: seq<Action>): Ctl
    requires Possible(run)
    decreases |run|, 1
  {
    if run == [] then START else Step(After(run[..|run| - 1]), run[|run| - 1]).value
  }

  // ---------------------------------------------------------------- invariants

  function One(b: bool): nat {
    if b then 1 else 0
  }

  /** There is one token: in s0, with main, or with the merge process. Main's end may take it out of s0. */
  predicate Token(c: Ctl) {
    && c.s0 + One(MainHolds(c)) + One(MergeHolds(c)) <= 1
    && (c.main != Ended ==> c.s0 + One(MainHolds(c)) + One(MergeHolds(c)) == 1)
  }

  /** The adjustments say what each process has taken and not given back. */
  predicate UndoLaw(c: Ctl) {
    && c.mainUndo.sem0 == (if c.main in {AwaitRead, AwaitMerge, Leaving} then -1 else 0)
    && c.mergeUndo.sem0 == One(MergeHolds(c))
    && c.mainUndo.sem1 >= 0
    && (!MergeGone(c) && c.main != Ended ==> c.s1 + c.mainUndo.sem1 + c.mergeUndo.sem1 == 0)
    && (MergeGone(c) && c.main != Ended ==> c.s1 == 0)
  }

  /** While main does not hold the token, its last message is in the segment or was read from there; the
      merge process acts on that message and no other. */
  predicate Mailbox(c: Ctl) {
    && MainMail(c)
    && (!MainHolds(c) && c.merge != Killed ==>
          (c.nread > 0 ==> c.buf == c.msg) && (c.nread == 0 ==> c.got == Some(c.msg)))
    && (c.merge == CopyData ==> c.nread > 0)
    && (c.merge in {ClearLength, Dispatch, Merging, ReleaseToken, Exited} ==> c.got == Some(c.msg))
    && (c.merge in {Merging, ReleaseToken} ==> c.msg == MERGE)
    && (c.merge == Exited ==> c.msg == BYE && c.main in {AwaitRead, Leaving, Ended})
  }

  predicate MainMail(c: Ctl) {
    && (c.main in {SetLength, SetData, Release, AwaitRead, AwaitMerge} ==> c.msg == MERGE || c.msg == BYE)
    && (c.main == AwaitMerge ==> c.msg == MERGE)
    && (c.main in {Leaving, Ended} ==> c.msg == BYE && c.leaving)
    && (c.leaving ==> c.main != Waiting)
    && (c.main in {SetLength, SetData, Release, AwaitRead} && c.msg == BYE ==> c.leaving)
    && (c.main in {SetData, Release} ==> c.nread > 0)
    && (c.main == Release ==> c.buf == c.msg)
  }

  /** Once the merge process has taken the token, main's p2 has or will get a unit to take; a token the merge
      process puts back, or gives up when it is killed, is meant for a main that asked for a merge. */
  predicate Acknowledged(c: Ctl) {
    && (c.main == AwaitRead && (c.s0 == 0 || c.fromV) && !MergeGone(c) ==> c.merge == Acknowledge || c.s1 > 0)
    && (c.s0 == 1 && c.fromV && !MergeGone(c) ==> c.msg == MERGE && c.main in {AwaitRead, AwaitMerge})
    && (c.merge == Killed && c.main == AwaitMerge ==> c.fromV)
  }

  function Writes(c: Ctl): nat {
    c.requests + One(c.msg == BYE && c.main in {AwaitRead, Leaving, Ended})
  }

  /** Until a process is gone every unit of s1 comes from one read and goes to one write. */
  predicate ReadAccount(c: Ctl) {
    !MergeGone(c) && c.main != Ended ==>
      c.s1 + Writes(c) == One(c.main == AwaitRead) + c.merges
                          + One(c.merge in {TestLength, CopyData, ClearLength, Dispatch, Merging})
  }

  /** Every token that write_shm put out was taken by a read, taken back by main's own P, or is still out. */
  predicate TokenAccount(c: Ctl) {
    c.main != Ended ==>
      Writes(c) + c.retakes == c.merges + One(c.merge !in {TakeToken, ReleaseToken}) + c.selfTakes
                               + One(c.s0 == 1 && !c.fromV)
  }

  predicate HandedOff(c: Ctl) {
    c.retakes == 0
  }

  /** Main can take back its own token only after the merge process took back one of V's, or was killed. */
  predicate NoSelfTake(c: Ctl) {
    HandedOff(c) && c.merge != Killed ==> c.selfTakes == 0
  }

  predicate Inv(c: Ctl) {
    Token(c) && UndoLaw(c) && Mailbox(c) && Acknowledged(c) && ReadAccount(c) && TokenAccount(c) && NoSelfTake(c)
  }

  lemma MainToken(c: Ctl)
    requires Token(c) && UndoLaw(c) && Mailbox(c) && MainNext(c).Some?
    ensures Token(MainNext(c).value)
  {
  }

  lemma MergeToken(c: Ctl)
    requires Token(c) && UndoLaw(c) && Mailbox(c) && MergeNext(c).Some?
    ensures Token(MergeNext(c).value)
  {
  }

  lemma StepKeepsToken(c: Ctl, a: Action)
    requires Token(c) && UndoLaw(c) && Mailbox(c) && Step(c, a).Some?
    ensures Token(Step(c, a).value)
  {
    hide MainNext, MergeNext;
    if a == MainStep {
      MainToken(c);
    } else if a == MergeStep {
      MergeToken(c);
    }
  }

  lemma MainUndoLaw(c: Ctl)
    requires Token(c) && UndoLaw(c) && Mailbox(c) && MainNext(c).Some?
    ensures UndoLaw(MainNext(c).value)
  {
  }

  lemma MergeUndoLaw(c: Ctl)
    requires Token(c) && UndoLaw(c) && Mailbox(c) && MergeNext(c).Some?
    ensures UndoLaw(MergeNext(c).value)
  {
  }

  lemma StepKeepsUndoLaw(c: Ctl, a: Action)
    requires Token(c) && UndoLaw(c) && Mailbox(c) && Step(c, a).Some?
    ensures UndoLaw(Step(c, a).value)
  {
    hide MainNext, MergeNext;
    if a == MainStep {
      MainUndoLaw(c);
    } else if a == MergeStep {
      MergeUndoLaw(c);
    }
  }

  lemma MainMailbox(c: Ctl)
    requires Token(c) && Mailbox(c) && MainNext(c).Some?
    ensures Mailbox(MainNext(c).value)
  {
  }

  lemma MergeMailbox(c: Ctl)
    requires Token(c) && Mailbox(c) && MergeNext(c).Some?
    ensures Mailbox(MergeNext(c).value)
  {
  }

  lemma StepKeepsMailbox(c: Ctl, a: Action)
    requires Token(c) && Mailbox(c) && Step(c, a).Some?
    ensures Mailbox(Step(c, a).value)
  {
    hide MainNext, MergeNext;
    if a == MainStep {
      MainMailbox(c);
    } else if a == MergeStep {
      MergeMailbox(c);
    }
  }

  lemma MainAcknowledged(c: Ctl)
    requires Token(c) && UndoLaw(c) && Mailbox(c) && Acknowledged(c) && MainNext(c).Some?
    ensures Acknowledged(MainNext(c).value)
  {
  }

  lemma MergeAcknowledged(c: Ctl)
    requires Token(c) && UndoLaw(c) && Mailbox(c) && Acknowledged(c) && MergeNext(c).Some?
    ensures Acknowledged(MergeNext(c).value)
  {
  }

  lemma StepKeepsAcknowledged(c: Ctl, a: Action)
    requires Token(c) && UndoLaw(c) && Mailbox(c) && Acknowledged(c) && Step(c, a).Some?
    ensures Acknowledged(Step(c, a).value)
  {
    hide MainNext, MergeNext;
    if a == MainStep {
      MainAcknowledged(c);
    } else if a == MergeStep {
      MergeAcknowledged(c);
    }
  }

  lemma MainReadAccount(c: Ctl)
    requires Token(c) && Mailbox(c) && ReadAccount(c) && MainNext(c).Some?
    ensures ReadAccount(MainNext(c).value)
  {
  }

  lemma MergeReadAccount(c: Ctl)
    requires Token(c) && Mailbox(c) && ReadAccount(c) && MergeNext(c).Some?
    ensures ReadAccount(MergeNext(c).value)
  {
  }

  lemma StepKeepsReadAccount(c: Ctl, a: Action)
    requires Token(c) && Mailbox(c) && ReadAccount(c) && Step(c, a).Some?
    ensures ReadAccount(Step(c, a).value)
  {
    hide MainNext, MergeNext;
    if a == MainStep {
      MainReadAccount(c);
    } else if a == MergeStep {
      MergeReadAccount(c);
    }
  }

  lemma MainTokenAccount(c: Ctl)
    requires Token(c) && UndoLaw(c) && Mailbox(c) && TokenAccount(c) && MainNext(c).Some?
    ensures TokenAccount(MainNext(c).value)
  {
  }

  lemma MergeTokenAccount(c: Ctl)
    requires Token(c) && UndoLaw(c) && Mailbox(c) && TokenAccount(c) && MergeNext(c).Some?
    ensures TokenAccount(MergeNext(c).value)
  {
  }

  lemma StepKeepsTokenAccount(c: Ctl, a: Action)
    requires Token(c) && UndoLaw(c) && Mailbox(c) && TokenAccount(c) && Step(c, a).Some?
    ensures TokenAccount(Step(c, a).value)
  {
    hide MainNext, MergeNext;
    if a == MainStep {
      MainTokenAccount(c);
    } else if a == MergeStep {
      MergeTokenAccount(c);
    }
  }

  lemma MainNoSelfTake(c: Ctl)
    requires Token(c) && Mailbox(c) && ReadAccount(c) && TokenAccount(c) && NoSelfTake(c) && MainNext(c).Some?
    ensures NoSelfTake(MainNext(c).value)
  {
  }

  lemma MergeNoSelfTake(c: Ctl)
    requires Token(c) && Mailbox(c) && ReadAccount(c) && TokenAccount(c) && NoSelfTake(c) && MergeNext(c).Some?
    ensures NoSelfTake(MergeNext(c).value)
  {
  }

  lemma StepKeepsNoSelfTake(c: Ctl, a: Action)
    requires Token(c) && Mailbox(c) && ReadAccount(c) && TokenAccount(c) && NoSelfTake(c) && Step(c, a).Some?
    ensures NoSelfTake(Step(c, a).value)
  {
    hide MainNext, MergeNext;
    if a == MainStep {
      MainNoSelfTake(c);
    } else if a == MergeStep {
      MergeNoSelfTake(c);
    }
  }

  lemma StepKeepsInv(c: Ctl, a: Action)
    requires Inv(c) && Step(c, a).Some?
    ensures Inv(Step(c, a).value)
  {
    hide Token, UndoLaw, Mailbox, Acknowledged, ReadAccount, TokenAccount, NoSelfTake, Step;
    StepKeepsToken(c, a);
    StepKeepsUndoLaw(c, a);
    StepKeepsMailbox(c, a);
    StepKeepsAcknowledged(c, a);
    StepKeepsReadAccount(c, a);
    StepKeepsTokenAccount(c, a);
    StepKeepsNoSelfTake(c, a);
  }

  lemma {:induction false} Reachable(run: seq<Action>)
    requires Possible(run)
    ensures Inv(After(run))
  {
    hide Inv, Step;
    if run != [] {
      Reachable(run[..|run| - 1]);
      StepKeepsInv(After(run[..|run| - 1]), run[|run| - 1]);
    } else {
      StartInv();
    }
  }

  lemma StartInv()
    ensures Inv(START)
  {
  }

  // ---------------------------------------------------------------- safety over all interleavings

  /** Main is using the store or writing the segment. */
  predicate MainInside(c: Ctl) {
    c.main in {Working, Counting, SetLength, SetData}
  }

  /** The merge process is reading the segment or running merge(). */
  predicate MergeInside(c: Ctl) {
    c.merge in {TestLength, CopyData, ClearLength, Merging}
  }

  /** Although both semaphore ids name one set, the two processes are never both inside, and what the merge
      process acts on is always the message main sent last. */
  lemma MutualExclusion(run: seq<Action>)
    requires Possible(run)
    ensures var c := After(run);
            && c.s0 + One(MainHolds(c)) + One(MergeHolds(c)) <= 1
            && !(MainInside(c) && MergeInside(c))
            && (c.merge == Dispatch ==> c.got == Some(c.msg))
            && (c.merge == Merging ==> c.msg == MERGE && c.main in {AwaitRead, AwaitMerge})
  {
    hide Possible, After;
    Reachable(run);
  }

  /** No process can take a step and no message is awaited. */
  predicate Stuck(c: Ctl) {
    || (c.main == AwaitRead && c.s1 == 0 && MergeGone(c))
    || (c.main == Ended && c.merge == TakeToken && c.s0 == 0)
  }

  predicate Finished(c: Ctl) {
    c.main == Ended && MergeGone(c)
  }

  predicate MainCanMove(c: Ctl) {
    c.main in {Waiting, Working, Counting} || MainNext(c).Some?
  }

  /** Nothing can move in exactly two cases: both processes have ended, or one waits for a semaphore that the
      other, being gone, will not raise any more. */
  lemma StopsIff(c: Ctl)
    requires Inv(c)
    ensures !MainCanMove(c) && MergeNext(c).None? <==> Finished(c) || Stuck(c)
  {
  }

  // ---------------------------------------------------------------- how many merges a request causes

  lemma InControl(c: Ctl)
    requires Inv(c) && MainHolds(c)
    ensures c.merge != Killed ==> c.merges == c.requests + c.s1 && c.merges + c.selfTakes == c.requests + c.retakes
    ensures c.merge == Killed ==> c.merges + 1 + c.selfTakes == c.requests + c.retakes
    ensures HandedOff(c) && c.merge != Killed ==> c.merges == c.requests && c.s1 == 0 && c.s0 == 0
  {
  }

  /** What holds in every interleaving when main is in control and the merge process has not been killed: the
      surplus of merges over requests is the number left in semaphore 1, and it is what retaken tokens caused
      less what main took back itself. */
  lemma MergesAndRequests(run: seq<Action>)
    requires Possible(run) && MainHolds(After(run)) && After(run).merge != Killed
    ensures var c := After(run);
            c.merges == c.requests + c.s1 && c.merges + c.selfTakes == c.requests + c.retakes
  {
    hide Possible, After;
    Reachable(run);
    InControl(After(run));
  }

  /** After a first retaken token, until main is in control again, no other kind of token is about. */
  predicate RetakenOnly(c: Ctl) {
    c.selfTakes == 0 && (c.s0 == 1 ==> c.fromV) && !MainHolds(c)
  }

  lemma RetakenStep(c: Ctl, a: Action)
    requires Inv(c) && Step(c, a).Some? && !HandedOff(Step(c, a).value)
    requires (HandedOff(c) && c.merge != Killed) || RetakenOnly(c)
    ensures var c' := Step(c, a).value;
            RetakenOnly(c') || (MainHolds(c') && c'.selfTakes == 0)
  {
  }

  lemma RetakesOnlyGrow(c: Ctl, a: Action)
    requires Step(c, a).Some?
    ensures c.retakes <= Step(c, a).value.retakes
  {
  }
}
