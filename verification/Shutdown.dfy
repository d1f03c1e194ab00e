/**
  The end of a run of the accept queue (traccoon.c, thread.c): no state that can be reached is
  stuck. From each one some continuation, starting with the signal, leads to the exit.
 */
module Shutdown {
  import opened AcceptQueue

  // ---------------------------------------------------------------------------------------
  // How far it is
  // ---------------------------------------------------------------------------------------

  /** Steps of a worker that is to release a slot or to come round to slot 0, of `q` slots. */
  function RoundLeft(pc: WorkerPc, q: nat): nat {
    match pc
    case ClearSocket(_) => 1
    case ClearThread(_) => 2
    case Copy(_) => 3
    case Adopt(i) => if i == 0 then 4 else if i <= q then 11 + (q - i) else 11
    case Top => 5
    case Serve => 6
    case WriteActive => 7
    case WriteId => 8
    case ReadActive => 9
    case ReadId => 10
    case _ => 0
  }

  /** Steps of a worker that is to leave, not counting the connections it closes on the way. */
  function LeaveLeft(pc: WorkerPc, q: nat): nat {
    match pc
    case Done => 0
    case Drain(i) => if i <= q then 5 * (q - i) + 5 else 0
    case DrainKill(i) => if i <= q then 5 * (q - i) + 4 else 0
    case DrainClose(i) => if i <= q then 5 * (q - i) + 3 else 0
    case DrainThread(i) => if i <= q then 5 * (q - i) + 2 else 0
    case DrainSocket(i) => if i <= q then 5 * (q - i) + 1 else 0
    case Reassign(_) => 0
    case CloseAll => 5 * q + 6
    case SpinKill => 5 * q + 7
    case Spin => 5 * q + 8
    case LeaveActive => 5 * q + 9
    case Leave => 5 * q + 10
    case Top => 5 * q + 11
    case Serve => 5 * q + 12
    case WriteActive => 5 * q + 13
    case WriteId => 5 * q + 14
    case ReadActive => 5 * q + 15
    case ReadId => 5 * q + 16
    case Adopt(i) => if i <= q then 5 * q + 4 * (q - i) + 17 else 0
    case Copy(i) => if i <= q then 5 * q + 4 * (q - i) + 16 else 0
    case ClearThread(i) => if i <= q then 5 * q + 4 * (q - i) + 15 else 0
    case ClearSocket(i) => if i <= q then 5 * q + 4 * (q - i) + 14 else 0
  }

  /** Steps of the acceptor once the signal has come, not counting its search for a free slot and its waiting. */
  function MainLeft(s: State): nat {
    var n, q := |s.workers|, |s.slots|;
    match s.main
    case Exit => 0
    case Sweep(i) => if i <= q then 1 + q - i else 0
    case Join(w) => if w <= n then q + 2 * (n - w) else 0
    case Stop(w) => if w <= n then q + 2 * (n - w) + 1 else 0
    case Kill => q + 2 * n + 2
    case LoopTest => q + 2 * n + 3
    case Failed(_) => q + 2 * n + 4
    case Assign(_, _) => q + 2 * n + 4
    case Pick(_) => q + 2 * n + 5
    case Accept(_) => q + 2 * n + 5
    case Clear(_) => q + 2 * n + 6
    case Scan(_) => q + 2 * n + 7
  }

  predicate Free(slots: seq<Slot>, j: nat) {
    j < |slots| && slots[j].sock.Empty?
  }

  ghost predicate AnyFree(slots: seq<Slot>) {
    exists j: nat :: Free(slots, j)
  }

  ghost function FreeSlot(slots: seq<Slot>): (j: nat)
    requires AnyFree(slots)
    ensures Free(slots, j)
  {
    var j: nat :| Free(slots, j);
    j
  }

  /** Steps of the search from slot i to slot j, round the queue. */
  function Round(i: nat, j: nat, q: nat): int {
    if i <= j then j - i else q - i + j
  }

  /** The worker that has the slot, when it is not free. */
  function Keeper(slot: Slot): nat {
    if slot.owner != 0 then slot.owner else slot.thread
  }

  /** The worker the acceptor waits for: to free a slot, or to end. */
  function Awaited(s: State): int
    requires Shape(s)
  {
    match s.main
    case Scan(_) => Keeper(s.slots[0]) - 1
    case Join(w) => w
    case _ => -1
  }

  /** What is left of the search or the waiting. */
  ghost function WaitLeft(s: State): int
    requires Shape(s)
  {
    var q, w := |s.slots|, Awaited(s);
    match s.main
    case Scan(i) =>
      if AnyFree(s.slots) then Round(i, FreeSlot(s.slots), q)
      else if 0 <= w < |s.workers| then q + RoundLeft(s.workers[w].pc, q) else q
    case Join(_) => if 0 <= w < |s.workers| then LeaveLeft(s.workers[w].pc, q) else 0
    case _ => 0
  }

  ghost function HeldLeft(s: State): nat
    requires Shape(s)
  {
    var w := Awaited(s);
    if 0 <= w < |s.workers| then |s.workers[w].held| else 0
  }

  /** The state t is nearer to the exit than s. */
  ghost predicate Nearer(t: State, s: State)
    requires Shape(t) && Shape(s)
  {
    || MainLeft(t) < MainLeft(s)
    || (MainLeft(t) == MainLeft(s) && 0 <= WaitLeft(t) < WaitLeft(s))
    || (MainLeft(t) == MainLeft(s) && 0 <= WaitLeft(t) == WaitLeft(s) && HeldLeft(t) < HeldLeft(s))
  }

  // ---------------------------------------------------------------------------------------
  // There is always a step that brings the exit nearer
  // ---------------------------------------------------------------------------------------

  lemma MainMoves(s: State)
    requires Shape(s) && MainOk(s) && s.kill && !s.main.Scan? && !s.main.Join? && !s.main.Exit?
    ensures MainLeft(DoMain(s, false)) < MainLeft(s)
  {
  }

  lemma MainJoins(s: State, w: nat)
    requires Shape(s) && MainOk(s) && s.main == Join(w) && w < |s.workers| && s.workers[w].pc.Done?
    ensures MainLeft(DoMain(s, false)) < MainLeft(s)
  {
  }

  lemma RoundOn(i: nat, j: nat, q: nat)
    requires i < q && j < q && i != j
    ensures 0 <= (i + 1) % q < q && 0 <= Round((i + 1) % q, j, q) < Round(i, j, q)
  {
    if i + 1 < q {
      assert (i + 1) % q == i + 1;
    } else {
      assert (i + 1) % q == 0;
    }
  }

  /** The search for a slot comes to a free one. */
  lemma Searches(s: State)
    requires Shape(s) && MainOk(s) && s.main.Scan? && AnyFree(s.slots)
    ensures var t := DoMain(s, false); Shape(t) && Nearer(t, s)
  {
    hide AnyFree, Round, Keeper;
    var j := FreeSlot(s.slots);
    if s.main.i != j {
      RoundOn(s.main.i, j, |s.slots|);
    }
  }

  /** A slot that is not free belongs to a worker in its loop, which releases it or will find it. */
  lemma KeeperWorks(s: State)
    requires Control(s) && s.main.Scan? && !AnyFree(s.slots)
    ensures 0 <= Awaited(s) < |s.workers|
    ensures var w := Awaited(s); var pc := s.workers[w].pc;
      && !s.shutdown[w] && WorkerOk(s, w) && !Late(pc)
      && (pc == Adopt(0) ==> s.slots[0].thread == w + 1)
  {
    var slot := s.slots[0];
    assert SlotOk(s, 0) && !Free(s.slots, 0);
    hide SlotOk;
    assert WorkerOk(s, Awaited(s));
  }

  /** A step of the worker that has slot 0: it frees a slot, or is nearer to slot 0. */
  lemma KeeperMoves(s: State, w: nat, choice: nat)
    requires Control(s) && s.main.Scan? && !AnyFree(s.slots) && w == Awaited(s) && w < |s.workers|
    requires s.workers[w].held != multiset{} ==> choice in s.workers[w].held
    ensures FreesSooner(s, DoWorker(s, w, choice), w)
  {
    hide SlotOk, MainOk, AnyFree, DoWorker, FreesSooner;
    KeeperWorks(s);
    var pc := s.workers[w].pc;
    hide WorkerOk;
    if Leaving(pc) || pc.ReadId? || pc.ReadActive? || pc.WriteId? || pc.WriteActive? || pc.Top? {
      KeeperPasses(s, w, choice);
    } else {
      KeeperReleases(s, w, choice);
    }
  }

  ghost predicate FreesSooner(s: State, t: State, w: nat)
    requires Shape(s) && w < |s.workers|
  {
    && Shape(t) && |t.slots| == |s.slots| && |t.workers| == |s.workers| && t.main == s.main
    && (|| AnyFree(t.slots)
        || (&& Keeper(t.slots[0]) == Keeper(s.slots[0])
            && (|| RoundLeft(t.workers[w].pc, |s.slots|) < RoundLeft(s.workers[w].pc, |s.slots|)
                || (&& RoundLeft(t.workers[w].pc, |s.slots|) == RoundLeft(s.workers[w].pc, |s.slots|)
                    && |t.workers[w].held| < |s.workers[w].held|))))
  }

  lemma KeeperPasses(s: State, w: nat, choice: nat)
    requires Shape(s) && w < |s.workers| && !s.shutdown[w]
    requires var pc := s.workers[w].pc;
      pc.Serve? || pc.ReadId? || pc.ReadActive? || pc.WriteId? || pc.WriteActive? || pc.Top?
    requires s.workers[w].held != multiset{} ==> choice in s.workers[w].held
    ensures FreesSooner(s, DoWorker(s, w, choice), w)
  {
    hide AnyFree, Keeper;
  }

  lemma KeeperReleases(s: State, w: nat, choice: nat)
    requires Shape(s) && w < |s.workers| && WorkerOk(s, w) && w + 1 == Keeper(s.slots[0])
    requires var pc := s.workers[w].pc; pc.Adopt? || pc.Copy? || pc.ClearThread? || pc.ClearSocket?
    requires s.workers[w].pc == Adopt(0) ==> s.slots[0].thread == w + 1
    ensures FreesSooner(s, DoWorker(s, w, choice), w)
  {
    hide AnyFree;
    var t := DoWorker(s, w, choice);
    match s.workers[w].pc {
      case ClearSocket(i) => FreeNow(t.slots, i);
      case _ =>
    }
  }

  lemma FreeNow(slots: seq<Slot>, i: nat)
    requires Free(slots, i)
    ensures AnyFree(slots)
  {
  }

  lemma KeeperNearer(s: State, w: nat, choice: nat)
    requires Control(s) && s.main.Scan? && !AnyFree(s.slots) && w == Awaited(s) && w < |s.workers|
    requires s.workers[w].held != multiset{} ==> choice in s.workers[w].held
    ensures var t := DoWorker(s, w, choice); Shape(t) && Nearer(t, s)
  {
    hide DoWorker, SlotOk, WorkerOk, RoundLeft;
    KeeperMoves(s, w, choice);
  }

  ghost predicate LeavesSooner(s: State, t: State, w: nat)
    requires w < |s.workers|
  {
    && Shape(t) && |t.slots| == |s.slots| && |t.workers| == |s.workers| && t.main == s.main
    && (|| LeaveLeft(t.workers[w].pc, |s.slots|) < LeaveLeft(s.workers[w].pc, |s.slots|)
        || (&& LeaveLeft(t.workers[w].pc, |s.slots|) == LeaveLeft(s.workers[w].pc, |s.slots|)
            && |t.workers[w].held| < |s.workers[w].held|))
  }

  predicate Looping(pc: WorkerPc) {
    || pc.Top? || pc.Adopt? || pc.Copy? || pc.ClearThread? || pc.ClearSocket?
    || pc.ReadId? || pc.ReadActive? || pc.WriteId? || pc.WriteActive?
  }

  predicate Leaving(pc: WorkerPc) {
    pc.Serve? || pc.Leave? || pc.LeaveActive? || pc.Spin? || pc.SpinKill? || pc.CloseAll?
  }

  predicate Emptying(pc: WorkerPc) {
    pc.DrainClose? || pc.DrainThread? || pc.DrainSocket?
  }

  lemma LeaverInLoop(s: State, w: nat, choice: nat)
    requires Shape(s) && w < |s.workers| && WorkerOk(s, w) && s.shutdown[w]
    requires Looping(s.workers[w].pc)
    ensures LeavesSooner(s, DoWorker(s, w, choice), w)
  {
  }

  lemma LeaverLate(s: State, w: nat, choice: nat)
    requires Shape(s) && w < |s.workers| && s.kill
    requires s.workers[w].held != multiset{} ==> choice in s.workers[w].held
    requires Leaving(s.workers[w].pc)
    ensures LeavesSooner(s, DoWorker(s, w, choice), w)
  {
  }

  lemma LeaverDraining(s: State, w: nat, choice: nat)
    requires Shape(s) && w < |s.workers| && WorkerOk(s, w) && s.kill
    requires s.workers[w].pc.Drain? || s.workers[w].pc.DrainKill?
    ensures LeavesSooner(s, DoWorker(s, w, choice), w)
  {
  }

  lemma LeaverEmptying(s: State, w: nat, choice: nat)
    requires Shape(s) && w < |s.workers| && WorkerOk(s, w) && Emptying(s.workers[w].pc)
    ensures LeavesSooner(s, DoWorker(s, w, choice), w)
  {
  }

  /** A step of a worker that is being waited for, once killserver is set. */
  lemma LeaverMoves(s: State, w: nat, choice: nat)
    requires Control(s) && s.kill && w < |s.workers| && s.shutdown[w] && !s.workers[w].pc.Done?
    requires s.workers[w].held != multiset{} ==> choice in s.workers[w].held
    ensures LeavesSooner(s, DoWorker(s, w, choice), w)
  {
    hide SlotOk, MainOk, WorkerOk, DoWorker, LeavesSooner;
    assert WorkerOk(s, w);
    NeverReassigns(s, w);
    match s.workers[w].pc {
      case Serve => LeaverLate(s, w, choice);
      case Leave => LeaverLate(s, w, choice);
      case LeaveActive => LeaverLate(s, w, choice);
      case Spin => LeaverLate(s, w, choice);
      case SpinKill => LeaverLate(s, w, choice);
      case CloseAll => LeaverLate(s, w, choice);
      case Drain(_) => LeaverDraining(s, w, choice);
      case DrainKill(_) => LeaverDraining(s, w, choice);
      case DrainClose(_) => LeaverEmptying(s, w, choice);
      case DrainThread(_) => LeaverEmptying(s, w, choice);
      case DrainSocket(_) => LeaverEmptying(s, w, choice);
      case _ => LeaverInLoop(s, w, choice);
    }
  }

  lemma LeaverNearer(s: State, w: nat, choice: nat)
    requires Control(s) && s.kill && s.main == Join(w) && w < |s.workers| && !s.workers[w].pc.Done?
    requires s.workers[w].held != multiset{} ==> choice in s.workers[w].held
    ensures var t := DoWorker(s, w, choice); Shape(t) && Nearer(t, s)
  {
    hide DoWorker, SlotOk, WorkerOk, LeaveLeft;
    LeaverMoves(s, w, choice);
  }

  lemma SomeHeld(held: multiset<nat>) returns (choice: nat)
    ensures held != multiset{} ==> choice in held
  {
    choice := 0;
    if held != multiset{} {
      choice :| choice in held;
    }
  }

  lemma Advances(s: State) returns (a: Action)
    requires Inv(s) && s.kill && !s.main.Exit?
    ensures Inv(Do(s, a)) && Do(s, a).kill && Nearer(Do(s, a), s)
  {
    hide DoMain, DoWorker, SlotOk, WorkerOk, Books, AnyFree, MainLeft, WaitLeft, HeldLeft;
    a := MainStep(false);
    match s.main {
      case Scan(_) =>
        if AnyFree(s.slots) {
          Searches(s);
        } else {
          KeeperWorks(s);
          var choice := SomeHeld(s.workers[Awaited(s)].held);
          a := WorkerStep(Awaited(s), choice);
          KeeperNearer(s, Awaited(s), choice);
        }
      case Join(w) =>
        if s.workers[w].pc.Done? {
          MainJoins(s, w);
        } else {
          var choice := SomeHeld(s.workers[w].held);
          a := WorkerStep(w, choice);
          LeaverNearer(s, w, choice);
        }
      case _ => MainMoves(s);
    }
    StepKeeps(s, a);
    StaysKilled(s, a);
  }

  lemma StaysKilled(s: State, a: Action)
    requires Inv(s) && s.kill
    ensures Do(s, a).kill
  {
    hide Control, Books;
  }

  // ---------------------------------------------------------------------------------------
  // The exit
  // ---------------------------------------------------------------------------------------

  lemma Then(s: State, a: Action, more: seq<Action>)
    requires Inv(s)
    ensures Inv(Do(s, a)) && Run(s, [a] + more) == Run(Do(s, a), more)
  {
    hide Inv, Do;
    StepKeeps(s, a);
    assert ([a] + more)[1..] == more;
  }

  lemma {:induction false} Killed(s: State) returns (more: seq<Action>)
    requires Inv(s) && s.kill
    ensures Run(s, more).main.Exit?
    decreases MainLeft(s), if WaitLeft(s) >= 0 then WaitLeft(s) else 0, HeldLeft(s)
  {
    hide Control, Books, Do, MainLeft, WaitLeft, HeldLeft;
    ControlShape(s);
    more := [];
    if !s.main.Exit? {
      var a := Advances(s);
      var rest := Killed(Do(s, a));
      Then(s, a, rest);
      more := [a] + rest;
    }
  }

  /** No deadlock: from every state that a run comes to, the program can still get to its exit. */
  lemma CanExit(start: State, actions: seq<Action>)
    requires Starts(start)
    ensures exists more :: Run(Run(Start(start), actions), more).main.Exit?
  {
    hide Inv, Do, Run, Starts;
    var s := Run(Start(start), actions);
    SignalKeeps(s);
    assert Do(s, Signal) == s.(kill := true) by {
      SignalSets(s);
    }
    var rest := Killed(Do(s, Signal));
    Then(s, Signal, rest);
  }

  lemma SignalSets(s: State)
    requires Inv(s)
    ensures Shape(s) && Do(s, Signal) == s.(kill := true)
  {
  }
}
