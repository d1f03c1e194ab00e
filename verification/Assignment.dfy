/**
  Which worker gets a new connection (traccoon.c): the one that LAZIEST_WORKER named when the
  acceptor read it, between accepting the connection and assigning its slot.
 */
module Assignment {
  import opened AcceptQueue
  import opened LoadBalance
  import opened Limits

  /** How many connections each worker has. */
  function Counts(s: State): (c: seq<nat>)
    ensures |c| == |s.workers|
  {
    seq(|s.workers|, w requires 0 <= w < |s.workers| => |s.workers[w].held|)
  }

  /** In this state the connection `id` is accepted, waits in slot i unassigned, and the record names worker `tid`. */
  predicate Recorded(s: State, i: nat, id: nat, tid: nat) {
    i < |s.slots| && s.slots[i] == Slot(0, Conn(id), 0) && s.laziest.threadID == tid
  }

  // ---------------------------------------------------------------------------------------
  // Runs from the end
  // ---------------------------------------------------------------------------------------

  lemma {:induction false} RunConcat(s: State, a: seq<Action>, b: seq<Action>)
    requires Inv(s)
    ensures Run(s, a + b) == Run(Run(s, a), b)
    decreases |a|
  {
    hide Control, Books, Do;
    if a == [] {
      assert a + b == b;
    } else {
      ControlShape(s);
      StepKeeps(s, a[0]);
      RunConcat(Do(s, a[0]), a[1..], b);
      assert (a + b)[1..] == a[1..] + b;
    }
  }

  lemma RunLast(s: State, actions: seq<Action>)
    requires Inv(s) && actions != []
    ensures Inv(Run(s, actions[..|actions| - 1]))
    ensures Shape(Run(s, actions[..|actions| - 1]))
    ensures Run(s, actions) == Do(Run(s, actions[..|actions| - 1]), actions[|actions| - 1])
  {
    var most, last := actions[..|actions| - 1], actions[|actions| - 1];
    assert actions == most + [last];
    hide Control, Books, Do, Run;
    ControlShape(Run(s, most));
    RunConcat(s, most, [last]);
    RunOne(Run(s, most), last);
  }

  lemma RunOne(s: State, a: Action)
    requires Inv(s) && Shape(s)
    ensures Run(s, [a]) == Do(s, a)
  {
    hide Inv, Do;
    StepKeeps(s, a);
    assert [a][1..] == [];
  }

  // ---------------------------------------------------------------------------------------
  // One step
  // ---------------------------------------------------------------------------------------

  /** The acceptor is about to assign the connection in slot i to worker `tid`. */
  predicate AboutTo(s: State, i: nat, tid: nat) {
    s.main == Assign(i, tid)
  }

  /** No worker touches a slot that is assigned to nobody and taken by nobody, nor assigns one. */
  lemma WorkerLeavesSlot(s: State, w: nat, choice: nat, i: nat)
    requires Control(s) && w < |s.workers| && i < |s.slots|
    ensures var t := DoWorker(s, w, choice);
      && t.main == s.main && |t.slots| == |s.slots|
      && (s.slots[i].thread == 0 && s.slots[i].owner == 0 ==> t.slots[i] == s.slots[i])
      && (s.slots[i].thread == 0 ==> t.slots[i].thread == 0)
  {
    hide SlotOk, MainOk, WorkerOk, DoWorker, Releasing;
    var j := WorkerHasEffect(s, w, choice);
  }

  lemma WorkerSlots(s: State, w: nat, choice: nat)
    requires Control(s) && w < |s.workers|
    ensures |DoWorker(s, w, choice).slots| == |s.slots|
  {
    hide SlotOk, MainOk, WorkerOk, DoWorker;
    var j := WorkerHasEffect(s, w, choice);
  }

  /**
    One step before, the acceptor was either about to assign the same connection in the same
    slot, or read in the record the worker that it is about to assign it to.
   */
  lemma StepBefore(s: State, a: Action, i: nat, tid: nat, id: nat)
    requires Inv(s) && Shape(s) && AboutTo(Do(s, a), i, tid)
    requires i < |Do(s, a).slots| && Do(s, a).slots[i].sock == Conn(id)
    ensures i < |s.slots| && s.slots[i].sock == Conn(id)
    ensures AboutTo(s, i, tid) || (a.MainStep? && s.main == Pick(i) && Recorded(s, i, id, tid))
  {
    hide SlotOk, WorkerOk, Books, DoWorker;
    match a {
      case Signal =>
      case MainStep(ok) =>
      case WorkerStep(w, choice) =>
        if w < |s.workers| {
          WorkerSlots(s, w, choice);
          WorkerLeavesSlot(s, w, choice, i);
        }
    }
  }

  /** Only the acceptor assigns a slot that is assigned to nobody. */
  lemma WhoAssigns(s: State, a: Action, i: nat, id: nat)
    requires Inv(s) && Shape(s) && i < |s.slots| == |Do(s, a).slots|
    requires s.slots[i].sock == Conn(id) && s.slots[i].thread == 0 && Do(s, a).slots[i].thread != 0
    ensures AboutTo(s, i, Do(s, a).slots[i].thread)
  {
    hide SlotOk, WorkerOk, Books, MainOk, DoWorker;
    match a {
      case Signal =>
      case MainStep(ok) =>
      case WorkerStep(w, choice) =>
        if w < |s.workers| {
          WorkerLeavesSlot(s, w, choice, i);
        }
    }
  }

  // ---------------------------------------------------------------------------------------
  // In every run
  // ---------------------------------------------------------------------------------------

  /** While the acceptor is about to assign a slot, it has read the record at some state of the run before. */
  lemma {:induction false} HasRead(start: State, actions: seq<Action>, i: nat, tid: nat, id: nat) returns (m: nat)
    requires Inv(start) && start.main == LoopTest
    requires var s := Run(start, actions);
      AboutTo(s, i, tid) && i < |s.slots| && s.slots[i].sock == Conn(id)
    ensures m < |actions| && actions[m].MainStep?
    ensures Recorded(Run(start, actions[..m]), i, id, tid)
    decreases |actions|
  {
    hide Inv, Do, Run, Recorded;
    assert actions != [] by {
      if actions == [] {
        RunNothing(start);
      }
    }
    RunLast(start, actions);
    var n := |actions| - 1;
    var before := Run(start, actions[..n]);
    StepBefore(before, actions[n], i, tid, id);
    if AboutTo(before, i, tid) {
      m := HasRead(start, actions[..n], i, tid, id);
      assert actions[..n][..m] == actions[..m];
    } else {
      m := n;
    }
  }

  lemma RunNothing(s: State)
    requires Inv(s)
    ensures Run(s, []) == s
  {
  }

  /**
    In every run: when the slot of an accepted connection gets assigned, it is to the worker
    that LAZIEST_WORKER named in some state before in which the connection was accepted and not
    assigned; and if the record was minimal then, nobody had fewer connections than that worker.
   */
  lemma AssignedAsRecorded(start: State, actions: seq<Action>, a: Action, i: nat, id: nat) returns (m: nat)
    requires Starts(start)
    requires var s, t := Run(Start(start), actions), Run(Start(start), actions + [a]);
      && i < |s.slots| && i < |t.slots|
      && s.slots[i].sock == Conn(id) && s.slots[i].thread == 0 && t.slots[i].thread != 0
    ensures m < |actions| && actions[m].MainStep?
    ensures var tid, r := Run(Start(start), actions + [a]).slots[i].thread, Run(Start(start), actions[..m]);
      && i < |r.slots| && r.slots[i].sock == Conn(id) && r.slots[i].thread == 0
      && r.laziest.threadID == tid && 1 <= tid <= |r.workers|
      && (Minimal(r.laziest, Counts(r)) ==>
            forall w :: 0 <= w < |r.workers| ==> |r.workers[tid - 1].held| <= |r.workers[w].held|)
  {
    hide Inv, Do, Run, Starts;
    StartsLoop(start);
    var all := actions + [a];
    RunLast(Start(start), all);
    assert all[..|all| - 1] == actions;
    var s := Run(Start(start), actions);
    SameSlots(s, a);
    WhoAssigns(s, a, i, id);
    var tid := Run(Start(start), all).slots[i].thread;
    m := HasRead(Start(start), actions, i, tid, id);
    var r := Run(Start(start), actions[..m]);
    NamesWorker(r);
    MinimalCounts(r);
  }

  lemma SameSlots(s: State, a: Action)
    requires Inv(s) && Shape(s)
    ensures |Do(s, a).slots| == |s.slots|
  {
    hide SlotOk, WorkerOk, Books, MainOk, DoWorker;
    match a {
      case Signal =>
      case MainStep(ok) =>
      case WorkerStep(w, choice) =>
        if w < |s.workers| {
          WorkerSlots(s, w, choice);
        }
    }
  }

  lemma StartsLoop(s: State)
    requires Starts(s)
    ensures Start(s).main == LoopTest
  {
  }

  lemma NamesWorker(s: State)
    requires Inv(s)
    ensures 1 <= s.laziest.threadID <= |s.workers|
  {
    hide Books;
  }

  lemma MinimalCounts(s: State)
    ensures Minimal(s.laziest, Counts(s)) ==>
      forall w :: 0 <= w < |s.workers| ==>
        |s.workers[s.laziest.threadID - 1].held| <= |s.workers[w].held|
  {
    if Minimal(s.laziest, Counts(s)) {
      forall w | 0 <= w < |s.workers|
        ensures |s.workers[s.laziest.threadID - 1].held| <= |s.workers[w].held|
      {
        assert Counts(s)[w] == |s.workers[w].held|;
      }
    }
  }

  // ---------------------------------------------------------------------------------------
  // A pass of a worker that nobody disturbs
  // ---------------------------------------------------------------------------------------

  /** The connections that slots from the i-th on hold for worker `tid`. */
  function AssignedFrom(slots: seq<Slot>, tid: nat, i: nat): multiset<nat>
    decreases |slots| - i
  {
    if i >= |slots| then multiset{}
    else (if slots[i].thread == tid then OneId(slots[i].sock) else multiset{}) + AssignedFrom(slots, tid, i + 1)
  }

  /**
    In t worker w has taken over all that slots from the i-th on held for it, cleared these
    slots and updated the record; everything else is as in s.
   */
  ghost predicate PassedFrom(s: State, t: State, w: nat, i: nat)
    requires w < |s.workers|
  {
    && |t.slots| == |s.slots| && |t.workers| == |s.workers| && t.main == s.main
    && (forall v :: 0 <= v < |s.workers| && v != w ==> t.workers[v] == s.workers[v])
    && t.workers[w].held == s.workers[w].held + AssignedFrom(s.slots, w + 1, i)
    && t.workers[w].pc == Serve
    && t.laziest == Update(s.laziest, w + 1, |t.workers[w].held|)
    && forall j :: 0 <= j < |s.slots| ==>
         t.slots[j] == if j >= i && s.slots[j].thread == w + 1 then Slot(0, Empty, 0) else s.slots[j]
  }

  lemma PassesOn(s: State, s': State, t: State, w: nat, i: nat)
    requires w < |s.workers| == |s'.workers| && i < |s.slots| == |s'.slots| && PassedFrom(s', t, w, i + 1)
    requires s'.main == s.main && s'.laziest == s.laziest
    requires forall v :: 0 <= v < |s.workers| && v != w ==> s'.workers[v] == s.workers[v]
    requires forall j :: 0 <= j < |s.slots| && j != i ==> s'.slots[j] == s.slots[j]
    requires if s.slots[i].thread == w + 1
      then s'.slots[i] == Slot(0, Empty, 0) && s'.workers[w].held == s.workers[w].held + OneId(s.slots[i].sock)
      else s'.slots[i] == s.slots[i] && s'.workers[w].held == s.workers[w].held
    ensures PassedFrom(s, t, w, i)
  {
    SameAssigned(s.slots, s'.slots, w + 1, i + 1);
    hide Update;
  }

  lemma {:induction false} SameAssigned(a: seq<Slot>, b: seq<Slot>, tid: nat, i: nat)
    requires |a| == |b| && forall j :: i <= j < |a| ==> a[j] == b[j]
    ensures AssignedFrom(a, tid, i) == AssignedFrom(b, tid, i)
    decreases |a| - i
  {
    if i < |a| {
      SameAssigned(a, b, tid, i + 1);
    }
  }

  /** The four steps that take a connection over and clear its slot. */
  lemma TakesOver(s: State, w: nat, i: nat) returns (s': State)
    requires Inv(s) && w < |s.workers| && s.workers[w].pc == Adopt(i) && i < |s.slots|
    requires s.slots[i].thread == w + 1
    ensures Inv(s') && |s'.workers| == |s.workers| && |s'.slots| == |s.slots|
    ensures s' == s.(slots := s.slots[i := Slot(0, Empty, 0)], adopted := s'.adopted,
                     workers := s.workers[w := Worker(Adopt(i + 1), s.workers[w].held + OneId(s.slots[i].sock))])
    ensures forall n: nat :: Alone(s, w, n + 4) == Alone(s', w, n)
  {
    hide Control, Books, Alone;
    ControlShape(s);
    var s1 := DoWorker(s, w, 0);
    var s2 := DoWorker(s1, w, 0);
    var s3 := DoWorker(s2, w, 0);
    s' := DoWorker(s3, w, 0);
    hide DoWorker;
    AloneStep(s, s1, w);
    AloneStep(s1, s2, w);
    AloneStep(s2, s3, w);
    AloneStep(s3, s', w);
    forall n: nat ensures Alone(s, w, n + 4) == Alone(s', w, n) {
      assert Alone(s, w, (n + 3) + 1) == Alone(s1, w, (n + 2) + 1);
    }
  }

  lemma AloneStep(s: State, s': State, w: nat)
    requires Inv(s) && w < |s.workers| && Shape(s) && s' == DoWorker(s, w, 0) && |s'.workers| == |s.workers|
    ensures Inv(s') && Shape(s') && forall n: nat :: Alone(s, w, n + 1) == Alone(s', w, n)
  {
    hide Control, Books, DoWorker, Alone;
    StepKeeps(s, WorkerStep(w, 0));
    ControlShape(s');
    forall n: nat ensures Alone(s, w, n + 1) == Alone(s', w, n) {
      AloneAgain(s, s', w, n + 1);
    }
  }

  lemma {:induction false} PassFrom(s: State, w: nat, i: nat) returns (n: nat)
    requires Inv(s) && w < |s.workers| && s.workers[w].pc == Adopt(i) && i <= |s.slots|
    ensures PassedFrom(s, Alone(s, w, n), w, i)
    decreases |s.slots| - i
  {
    hide Control, Books, Alone, PassedFrom, Update;
    ControlShape(s);
    if i == |s.slots| {
      var s' := DoWorker(s, w, 0);
      AloneStep(s, s', w);
      UpdatesRecord(s', w);
      var m: nat :| Alone(s', w, m) == Go(s'.(laziest := Update(s'.laziest, w + 1, |s'.workers[w].held|)), w, Serve);
      n := m + 1;
      LastOne(s, Alone(s', w, m), w);
    } else if s.slots[i].thread == w + 1 {
      var s' := TakesOver(s, w, i);
      var m := PassFrom(s', w, i + 1);
      n := m + 4;
      PassesOn(s, s', Alone(s', w, m), w, i);
    } else {
      var s' := DoWorker(s, w, 0);
      AloneStep(s, s', w);
      var m := PassFrom(s', w, i + 1);
      n := m + 1;
      PassesOn(s, s', Alone(s', w, m), w, i);
    }
  }

  lemma LastOne(s: State, t: State, w: nat)
    requires w < |s.workers|
    requires t == Go(s.(laziest := Update(s.laziest, w + 1, |s.workers[w].held|)), w, Serve)
    ensures PassedFrom(s, t, w, |s.slots|)
  {
    hide Update;
  }

  /**
    Undisturbed, the single reads and writes of a pass amount to this: the worker takes over
    every connection that is assigned to it, clears their slots, and updates the record with
    the new number of its connections.
   */
  lemma PassAlone(s: State, w: nat) returns (n: nat)
    requires Inv(s) && w < |s.workers| && s.workers[w].pc == Top && |s.shutdown| == |s.workers| && !s.shutdown[w]
    ensures PassedFrom(s, Alone(s, w, n), w, 0)
  {
    hide Control, Books, Alone, PassedFrom, Update;
    ControlShape(s);
    var s' := DoWorker(s, w, 0);
    AloneStep(s, s', w);
    var m := PassFrom(s', w, 0);
    n := m + 1;
    PassedSame(s, s', Alone(s', w, m), w);
  }

  lemma PassedSame(s: State, s': State, t: State, w: nat)
    requires w < |s.workers| && s' == Go(s, w, Adopt(0)) && PassedFrom(s', t, w, 0)
    ensures PassedFrom(s, t, w, 0)
  {
    hide Update, AssignedFrom;
  }

  /**
    A worker that leaves while the record names it gives its place up: in two steps of its own
    the record says INT_MAX, and whoever updates it next is named in its place.
   */
  lemma Relieved(s: State, w: nat, v: nat) returns (t: State)
    requires Inv(s) && Shape(s) && w < |s.workers| && v < |s.workers| && v != w
    requires s.workers[w].pc == Leave && s.laziest.threadID == w + 1 && |s.workers[v].held| < INT_MAX
    ensures t == Alone(s, w, 2) && t.laziest == Laziest(w + 1, INT_MAX)
    ensures |t.workers| == |s.workers| && t.workers[v] == s.workers[v]
    ensures Update(t.laziest, v + 1, |t.workers[v].held|).threadID == v + 1
  {
    hide Control, Books, Alone;
    var s1 := DoWorker(s, w, 0);
    AloneStep(s, s1, w);
    t := DoWorker(s1, w, 0);
    AloneStep(s1, t, w);
    AloneNever(t, w);
    assert Alone(s, w, 1 + 1) == Alone(s1, w, 0 + 1) == t;
  }

  /**
    The wait to be relieved: over at once for a worker that the record does not name; one that it
    names asks for killserver, which is set by then, and goes on too.
   */
  lemma WaitsNoLonger(s: State, w: nat) returns (n: nat, t: State)
    requires Inv(s) && Shape(s) && w < |s.workers| && s.workers[w].pc == Spin
    ensures n == (if s.laziest.threadID == w + 1 then 2 else 1) && t == Alone(s, w, n)
    ensures |t.workers| == |s.workers| && t.workers[w].pc == CloseAll && t.laziest == s.laziest
  {
    hide MainOk, SlotOk, Books, Alone;
    assert WorkerOk(s, w);
    hide WorkerOk, Inv;
    var s1 := DoWorker(s, w, 0);
    AloneStep(s, s1, w);
    n, t := 1, s1;
    if s.laziest.threadID == w + 1 {
      n, t := 2, DoWorker(s1, w, 0);
      AloneStep(s1, t, w);
      assert Alone(s, w, 1 + 1) == Alone(s1, w, 0 + 1);
    } else {
      assert Alone(s, w, 0 + 1) == Alone(s1, w, 0);
    }
    AloneNever(t, w);
  }

  /** A client that is finished is closed by the worker that has it, and by nobody else; nothing else changes. */
  lemma Finishes(s: State, w: nat, id: nat)
    requires Inv(s) && Shape(s) && w < |s.workers| && s.workers[w].pc == Serve && id in s.workers[w].held
    ensures var t := Do(s, WorkerStep(w, id));
      && |t.workers| == |s.workers| && t.workers[w].held + multiset{id} == s.workers[w].held
      && t.closedHeld == s.closedHeld + multiset{id}
      && t.slots == s.slots && t.laziest == s.laziest && t.closedQueue == s.closedQueue
      && forall v :: 0 <= v < |s.workers| && v != w ==> t.workers[v] == s.workers[v]
  {
    hide Control, Books;
  }
}
