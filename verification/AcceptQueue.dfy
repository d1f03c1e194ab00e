/**
  The accept queue (traccoon.c, thread.c): one acceptor hands connections to workers through
  slots that nobody locks. Every read or write of shared memory is one step, and any
  sequence of steps of the acceptor and the workers is a run.

  Connections carry numbers, in the order they are accepted, because descriptors are reused.
 */
module AcceptQueue {
  import opened Limits
  import opened LoadBalance

  /** What a slot's `socket` holds: 0, the -1 of a failed accept, or a connection. */
  datatype Sock = Empty | Failure | Conn(id: nat)

  /** `owner` is not in the program: the worker that has taken the connection and not yet cleared the slot. */
  datatype Slot = Slot(thread: nat, sock: Sock, owner: nat)

  /** Where the acceptor stands: what it does next. */
  datatype MainPc =
    | LoopTest            // while(!killserver)
    | Scan(i: nat)        // read aqueue[i].socket
    | Clear(i: nat)       // aqueue[i].thread=0
    | Accept(i: nat)      // aqueue[i].socket=accept(...)
    | Failed(i: nat)      // aqueue[i].socket=0
    | Pick(i: nat)        // read LAZIEST_WORKER.threadID
    | Assign(i: nat, t: nat) // aqueue[i].thread=t
    | Kill                // killserver=true
    | Stop(w: nat)        // threads[w].shutdown=true
    | Join(w: nat)        // pthread_join
    | Sweep(i: nat)       // close what is left in aqueue[i]
    | Exit

  datatype WorkerPc =
    | Top                 // while(!shutdown)
    | Adopt(i: nat)       // read queue[i].thread
    | Copy(i: nat)        // read queue[i].socket into the client buffer (the rest of the copy is not used)
    | ClearThread(i: nat) // queue[i].thread=0
    | ClearSocket(i: nat) // queue[i].socket=0
    | ReadId              // read LAZIEST_WORKER.threadID
    | ReadActive          // read LAZIEST_WORKER.activeSockets
    | WriteId
    | WriteActive
    | Serve               // close a client that is finished, or go round again
    | Leave               // after the loop: read LAZIEST_WORKER.threadID
    | LeaveActive         // LAZIEST_WORKER.activeSockets=INT_MAX
    | Spin                // wait to be relieved: read LAZIEST_WORKER.threadID
    | SpinKill            // read killserver
    | CloseAll            // close the clients
    | Drain(i: nat)       // read queue[i].thread
    | DrainKill(i: nat)   // read killserver
    | DrainClose(i: nat)  // close(queue[i].socket)
    | DrainThread(i: nat) // queue[i].thread=0
    | DrainSocket(i: nat) // queue[i].socket=0
    | Reassign(i: nat)    // queue[i].thread=LAZIEST_WORKER.threadID
    | Done

  /** A worker and the connections in its client buffer. */
  datatype Worker = Worker(pc: WorkerPc, held: multiset<nat>)

  /**
    The last four components are the books: how many connections have been accepted, which
    ones were adopted by a worker, and which ones were closed from a client buffer or from
    the queue.
   */
  datatype State = State(
    slots: seq<Slot>, laziest: Laziest, kill: bool, shutdown: seq<bool>,
    main: MainPc, workers: seq<Worker>,
    accepted: nat, adopted: multiset<nat>, closedHeld: multiset<nat>, closedQueue: multiset<nat>)

  datatype Action =
    | Signal                          // SIGINT sets killserver
    | MainStep(ok: bool)              // ok: accept succeeds
    | WorkerStep(w: nat, choice: nat) // choice: the connection that is finished

  predicate Shape(s: State) {
    && |s.slots| >= 1 && |s.workers| >= 1 && |s.shutdown| == |s.workers|
    && 1 <= s.laziest.threadID <= |s.workers|
  }

  /** In its loop, with no connection half taken over. */
  predicate InLoop(pc: WorkerPc, queuesize: nat) {
    match pc
    case Top => true
    case Adopt(i) => i <= queuesize
    case ReadId => true
    case ReadActive => true
    case WriteId => true
    case WriteActive => true
    case Serve => true
    case _ => false
  }

  /**
    The acceptor is about to enter its loop. LAZIEST_WORKER names a worker; the workers have
    been running for a while and may stand anywhere, and the signal may have come already.
   */
  predicate Starts(s: State) {
    && Shape(s) && s.main == LoopTest
    && (forall j :: 0 <= j < |s.slots| ==> s.slots[j] == Slot(0, Empty, 0))
    && (forall w :: 0 <= w < |s.workers| ==>
          !s.shutdown[w] && InLoop(s.workers[w].pc, |s.slots|) && s.workers[w].held == multiset{})
    && s.accepted == 0 && s.adopted == s.closedHeld == s.closedQueue == multiset{}
  }

  function OneId(sock: Sock): multiset<nat> {
    if sock.Conn? then multiset{sock.id} else multiset{}
  }

  // ---------------------------------------------------------------------------------------
  // The steps
  // ---------------------------------------------------------------------------------------

  function DoMain(s: State, ok: bool): State
    requires Shape(s)
  {
    match s.main
    case LoopTest => s.(main := if s.kill then Kill else Scan(0))
    case Scan(i) =>
      if i < |s.slots| && s.slots[i].sock.Empty? then s.(main := Clear(i))
      else s.(main := Scan((i + 1) % |s.slots|))
    case Clear(i) =>
      if i >= |s.slots| then s else
      s.(main := Accept(i), slots := s.slots[i := s.slots[i].(thread := 0)])
    case Accept(i) =>
      if i >= |s.slots| then s else
      if ok then
        s.(main := Pick(i), slots := s.slots[i := s.slots[i].(sock := Conn(s.accepted))], accepted := s.accepted + 1)
      else s.(main := Failed(i), slots := s.slots[i := s.slots[i].(sock := Failure)])
    case Failed(i) =>
      if i >= |s.slots| then s else
      s.(main := LoopTest, slots := s.slots[i := s.slots[i].(sock := Empty)])
    case Pick(i) => s.(main := Assign(i, s.laziest.threadID))
    case Assign(i, t) =>
      if i >= |s.slots| then s else
      s.(main := LoopTest, slots := s.slots[i := s.slots[i].(thread := t)])
    case Kill => s.(main := Stop(0), kill := true)
    case Stop(w) =>
      if w >= |s.shutdown| then s else
      s.(main := Join(w), shutdown := s.shutdown[w := true])
    case Join(w) =>
      if w < |s.workers| && s.workers[w].pc.Done? then s.(main := if w + 1 < |s.workers| then Stop(w + 1) else Sweep(0))
      else s
    case Sweep(i) =>
      if i >= |s.slots| then s.(main := Exit) else
      s.(main := Sweep(i + 1), closedQueue := s.closedQueue + OneId(s.slots[i].sock))
    case Exit => s
  }

  function Go(s: State, w: nat, pc: WorkerPc): State
    requires w < |s.workers|
  {
    s.(workers := s.workers[w := s.workers[w].(pc := pc)])
  }

  function Put(s: State, i: nat, slot: Slot): State
    requires i < |s.slots|
  {
    s.(slots := s.slots[i := slot])
  }

  /** close() on a connection of the client buffer. */
  function CloseHeld(s: State, w: nat, id: nat): State
    requires w < |s.workers|
  {
    s.(workers := s.workers[w := s.workers[w].(held := s.workers[w].held - multiset{id})],
       closedHeld := s.closedHeld + multiset{id})
  }

  function DoWorker(s: State, w: nat, choice: nat): State
    requires Shape(s) && w < |s.workers|
  {
    var tid, me, q := w + 1, s.workers[w], |s.slots|;
    match me.pc
    case Top => Go(s, w, if s.shutdown[w] then Leave else Adopt(0))
    case Adopt(i) =>
      Go(s, w, if i >= q then ReadId else if s.slots[i].thread == tid then Copy(i) else Adopt(i + 1))
    case Copy(i) =>
      if i >= q then s else
      var one := OneId(s.slots[i].sock);
      Put(s, i, s.slots[i].(owner := tid)).(
        workers := s.workers[w := Worker(ClearThread(i), me.held + one)], adopted := s.adopted + one)
    case ClearThread(i) => if i >= q then s else Go(Put(s, i, s.slots[i].(thread := 0)), w, ClearSocket(i))
    case ClearSocket(i) => if i >= q then s else Go(Put(s, i, s.slots[i].(sock := Empty, owner := 0)), w, Adopt(i + 1))
    case ReadId => Go(s, w, if s.laziest.threadID == tid then WriteId else ReadActive)
    case ReadActive => Go(s, w, if s.laziest.activeSockets > |me.held| then WriteId else Serve)
    case WriteId => Go(s.(laziest := s.laziest.(threadID := tid)), w, WriteActive)
    case WriteActive => Go(s.(laziest := s.laziest.(activeSockets := |me.held|)), w, Serve)
    case Serve => if choice in me.held then CloseHeld(s, w, choice) else Go(s, w, Top)
    case Leave => Go(s, w, if s.laziest.threadID == tid then LeaveActive else CloseAll)
    case LeaveActive => Go(s.(laziest := s.laziest.(activeSockets := INT_MAX)), w, Spin)
    case Spin => Go(s, w, if s.laziest.threadID == tid then SpinKill else CloseAll)
    case SpinKill => Go(s, w, if s.kill then CloseAll else Spin)
    case CloseAll =>
      if choice in me.held then CloseHeld(s, w, choice)
      else if me.held == multiset{} then Go(s, w, Drain(0)) else s
    case Drain(i) =>
      Go(s, w, if i >= q then Done else if s.slots[i].thread == tid then DrainKill(i) else Drain(i + 1))
    case DrainKill(i) => Go(s, w, if s.kill then DrainClose(i) else Reassign(i))
    case DrainClose(i) =>
      if i >= q then s else
      Go(Put(s, i, s.slots[i].(owner := tid)), w, DrainThread(i)).(
        closedQueue := s.closedQueue + OneId(s.slots[i].sock))
    case DrainThread(i) => if i >= q then s else Go(Put(s, i, s.slots[i].(thread := 0)), w, DrainSocket(i))
    case DrainSocket(i) => if i >= q then s else Go(Put(s, i, s.slots[i].(sock := Empty, owner := 0)), w, Drain(i + 1))
    case Reassign(i) => if i >= q then s else Go(Put(s, i, s.slots[i].(thread := s.laziest.threadID)), w, Drain(i + 1))
    case Done => s
  }

  function Do(s: State, a: Action): State
    requires Shape(s)
  {
    match a
    case Signal => s.(kill := true)
    case MainStep(ok) => DoMain(s, ok)
    case WorkerStep(w, choice) => if w < |s.workers| then DoWorker(s, w, choice) else s
  }

  // ---------------------------------------------------------------------------------------
  // The invariant
  // ---------------------------------------------------------------------------------------

  /** The accept loop is over and killserver is set. */
  predicate Ended(pc: MainPc) {
    pc.Stop? || pc.Join? || pc.Sweep? || pc.Exit?
  }

  /** The worker has left its loop. */
  predicate Late(pc: WorkerPc) {
    pc.Leave? || pc.LeaveActive? || pc.Spin? || pc.SpinKill? || pc.CloseAll? || Draining(pc)
  }

  predicate Draining(pc: WorkerPc) {
    pc.Drain? || pc.DrainKill? || pc.DrainClose? || pc.DrainThread? || pc.DrainSocket? || pc.Reassign? || pc.Done?
  }

  /** The worker has taken the connection of slot j and is about to clear the slot. */
  predicate Releasing(pc: WorkerPc, j: nat) {
    pc == ClearThread(j) || pc == ClearSocket(j) || pc == DrainThread(j) || pc == DrainSocket(j)
  }

  /** Up to which slot a leaving worker has made sure that nothing is assigned to it. */
  function DrainedTo(pc: WorkerPc, q: nat): nat {
    match pc
    case Drain(i) => i
    case DrainKill(i) => i
    case DrainClose(i) => i
    case DrainThread(i) => i
    case DrainSocket(i) => i
    case Done => q
    case _ => 0
  }

  /** `thread` is set only behind `socket`, and cleared before it. */
  predicate SlotOk(s: State, j: nat)
    requires Shape(s) && j < |s.slots|
  {
    var slot := s.slots[j];
    match slot.sock
    case Empty => slot.thread == 0 && slot.owner == 0
    case Failure => slot.thread == 0 && slot.owner == 0 && s.main == Failed(j)
    case Conn(_) =>
      && slot.thread <= |s.workers|
      && (slot.owner != 0 ==> slot.owner <= |s.workers| && Releasing(s.workers[slot.owner - 1].pc, j))
      && (slot.owner == 0 && slot.thread == 0 ==> s.main == Pick(j) || (s.main.Assign? && s.main.i == j))
  }

  predicate MainOk(s: State)
    requires Shape(s)
  {
    match s.main
    case Scan(i) => i < |s.slots|
    case Clear(i) => i < |s.slots| && s.slots[i].sock.Empty?
    case Accept(i) => i < |s.slots| && s.slots[i].sock.Empty?
    case Failed(i) => i < |s.slots| && s.slots[i].sock.Failure?
    case Pick(i) => i < |s.slots| && s.slots[i].sock.Conn? && s.slots[i].thread == 0 && s.slots[i].owner == 0
    case Assign(i, t) =>
      && i < |s.slots| && s.slots[i].sock.Conn? && s.slots[i].thread == 0 && s.slots[i].owner == 0
      && 1 <= t <= |s.workers|
    case Stop(w) => s.kill && w < |s.workers| && forall v :: 0 <= v < w ==> s.workers[v].pc.Done?
    case Join(w) => s.kill && w < |s.workers| && s.shutdown[w] && forall v :: 0 <= v < w ==> s.workers[v].pc.Done?
    case Sweep(i) => s.kill && i <= |s.slots| && forall v :: 0 <= v < |s.workers| ==> s.workers[v].pc.Done?
    case Exit => s.kill && forall v :: 0 <= v < |s.workers| ==> s.workers[v].pc.Done?
    case _ => true
  }

  predicate WorkerOk(s: State, w: nat)
    requires Shape(s) && w < |s.workers|
  {
    var pc, tid, q := s.workers[w].pc, w + 1, |s.slots|;
    && (s.shutdown[w] ==> Ended(s.main) && s.kill)
    && (Late(pc) ==> s.shutdown[w])
    && (Draining(pc) ==> s.workers[w].held == multiset{})
    && DrainedTo(pc, q) <= q
    && (forall j :: 0 <= j < DrainedTo(pc, q) ==> s.slots[j].thread != tid)
    && match pc
      case Adopt(i) => i <= q
      case Copy(i) => i < q && s.slots[i].thread == tid && s.slots[i].owner == 0
      case ClearThread(i) => i < q && s.slots[i].thread == tid && s.slots[i].owner == tid
      case ClearSocket(i) => i < q && s.slots[i].thread == 0 && s.slots[i].owner == tid
      case DrainKill(i) => i < q && s.slots[i].thread == tid && s.slots[i].owner == 0
      case DrainClose(i) => i < q && s.slots[i].thread == tid && s.slots[i].owner == 0
      case DrainThread(i) => i < q && s.slots[i].thread == tid && s.slots[i].owner == tid
      case DrainSocket(i) => i < q && s.slots[i].thread == 0 && s.slots[i].owner == tid
      case Reassign(_) => false
      case _ => true
  }

  predicate Control(s: State) {
    && Shape(s)
    && MainOk(s)
    && (forall j :: 0 <= j < |s.slots| ==> SlotOk(s, j))
    && (forall w :: 0 <= w < |s.workers| ==> WorkerOk(s, w))
  }

  // ---------------------------------------------------------------------------------------
  // The acceptor keeps the invariant
  // ---------------------------------------------------------------------------------------

  /** A step of the acceptor: workers stay, and at most one slot that no worker uses changes. */
  ghost predicate MainEffect(s: State, s': State, i: nat)
    requires Shape(s)
  {
    && Shape(s') && s'.workers == s.workers && s'.laziest == s.laziest
    && (s.kill ==> s'.kill) && (Ended(s.main) ==> Ended(s'.main))
    && (forall w :: 0 <= w < |s.workers| && s'.shutdown[w] && !s.shutdown[w] ==> Ended(s'.main) && s'.kill)
    && (forall w :: 0 <= w < |s.workers| && s.shutdown[w] ==> s'.shutdown[w])
    && |s'.slots| == |s.slots|
    && (forall j :: 0 <= j < |s.slots| && j != i ==> s'.slots[j] == s.slots[j])
    && (i < |s.slots| && s'.slots[i] != s.slots[i] ==>
          && s.slots[i].thread == 0 && s.slots[i].owner == 0 && s'.slots[i].owner == 0
          && (s'.slots[i].thread != 0 ==> !Ended(s.main)))
  }

  lemma MainKeepsWorker(s: State, s': State, i: nat, w: nat)
    requires Control(s) && MainEffect(s, s', i) && w < |s.workers|
    ensures WorkerOk(s', w)
  {
    hide MainOk, SlotOk;
    assert WorkerOk(s, w);
    if i < |s.slots| && s'.slots[i] != s.slots[i] {
      assert s'.slots[i].thread != 0 ==> !Late(s.workers[w].pc);
    }
  }

  /** Slots other than the one the acceptor is at do not care where it stands. */
  lemma MainKeepsSlot(s: State, s': State, i: nat, j: nat)
    requires Control(s) && MainEffect(s, s', i) && j < |s.slots| && j != i
    requires s.main != Failed(j) && s.main != Pick(j) && !(s.main.Assign? && s.main.i == j)
    ensures SlotOk(s', j)
  {
    hide MainOk, WorkerOk;
    assert SlotOk(s, j);
  }

  lemma MainAtSlot(s: State, ok: bool)
    requires Control(s) && (s.main.Clear? || s.main.Accept? || s.main.Failed? || s.main.Pick? || s.main.Assign?)
    ensures MainEffect(s, DoMain(s, ok), s.main.i) && MainOk(DoMain(s, ok))
    ensures SlotOk(DoMain(s, ok), s.main.i)
  {
    hide WorkerOk;
    assert SlotOk(s, s.main.i);
  }

  lemma MainElsewhere(s: State, ok: bool)
    requires Control(s) && (s.main.LoopTest? || s.main.Scan? || s.main.Exit? || s.main.Sweep?)
    ensures MainEffect(s, DoMain(s, ok), |s.slots|) && MainOk(DoMain(s, ok))
  {
    hide WorkerOk, SlotOk;
    assert 0 <= (if s.main.Scan? then (s.main.i + 1) % |s.slots| else 0) < |s.slots|;
  }

  lemma MainStopping(s: State, ok: bool)
    requires Control(s) && (s.main.Kill? || s.main.Stop? || s.main.Join?)
    ensures MainEffect(s, DoMain(s, ok), |s.slots|) && MainOk(DoMain(s, ok))
  {
    hide WorkerOk, SlotOk;
  }

  lemma MainKeeps(s: State, ok: bool)
    requires Control(s)
    ensures Control(DoMain(s, ok))
  {
    hide WorkerOk, SlotOk, MainOk, MainEffect, DoMain;
    var s' := DoMain(s, ok);
    var i: nat := |s.slots|;
    match s.main {
      case Clear(k) => i := k; MainAtSlot(s, ok);
      case Accept(k) => i := k; MainAtSlot(s, ok);
      case Failed(k) => i := k; MainAtSlot(s, ok);
      case Pick(k) => i := k; MainAtSlot(s, ok);
      case Assign(k, _) => i := k; MainAtSlot(s, ok);
      case Kill => MainStopping(s, ok);
      case Stop(_) => MainStopping(s, ok);
      case Join(_) => MainStopping(s, ok);
      case _ => MainElsewhere(s, ok);
    }
    EffectShape(s, s', i);
    forall j | 0 <= j < |s.slots| ensures SlotOk(s', j) {
      if j != i {
        MainKeepsSlot(s, s', i, j);
      }
    }
    forall w | 0 <= w < |s.workers| ensures WorkerOk(s', w) {
      MainKeepsWorker(s, s', i, w);
    }
  }

  lemma EffectShape(s: State, s': State, i: nat)
    requires Shape(s) && MainEffect(s, s', i)
    ensures Shape(s') && |s'.slots| == |s.slots| && |s'.workers| == |s.workers|
  {
  }

  // ---------------------------------------------------------------------------------------
  // The workers keep the invariant
  // ---------------------------------------------------------------------------------------

  /** A slot that worker `tid` has to itself: assigned to it, or taken by it. */
  predicate Mine(slot: Slot, tid: nat) {
    && slot.sock.Conn?
    && ((slot.thread == tid && (slot.owner == 0 || slot.owner == tid)) || (slot.thread == 0 && slot.owner == tid))
  }

  /** What the worker makes of such a slot. */
  predicate Released(old': Slot, slot: Slot, tid: nat) {
    (slot.thread == old'.thread || slot.thread == 0) && (slot.owner == 0 || slot.owner == tid)
  }

  /** A step of worker w: other workers stay, and at most slot i changes, one that w has to itself. */
  ghost predicate WorkerEffect(s: State, s': State, w: nat, i: nat)
    requires Shape(s) && w < |s.workers|
  {
    && Shape(s') && s'.main == s.main && s'.kill == s.kill && s'.shutdown == s.shutdown
    && |s'.workers| == |s.workers|
    && (forall v :: 0 <= v < |s.workers| && v != w ==> s'.workers[v] == s.workers[v])
    && (s.workers[w].pc.Done? ==> s'.workers[w].pc.Done?)
    && |s'.slots| == |s.slots|
    && (forall j :: 0 <= j < |s.slots| && j != i ==>
          s'.slots[j] == s.slots[j] && !Releasing(s.workers[w].pc, j))
    && (i < |s.slots| ==> Mine(s.slots[i], w + 1) && Released(s.slots[i], s'.slots[i], w + 1))
  }

  lemma WorkerKeepsOther(s: State, s': State, w: nat, i: nat, v: nat)
    requires Control(s) && w < |s.workers| && WorkerEffect(s, s', w, i) && v < |s.workers| && v != w
    ensures WorkerOk(s', v)
  {
    hide MainOk, SlotOk, Releasing;
    assert WorkerOk(s, v);
  }

  lemma WorkerKeepsSlot(s: State, s': State, w: nat, i: nat, j: nat)
    requires Control(s) && w < |s.workers| && WorkerEffect(s, s', w, i) && j < |s.slots| && j != i
    ensures SlotOk(s', j)
  {
    hide MainOk, WorkerOk, Releasing;
    assert SlotOk(s, j);
  }

  lemma WorkerKeepsMain(s: State, s': State, w: nat, i: nat)
    requires Control(s) && w < |s.workers| && WorkerEffect(s, s', w, i)
    ensures MainOk(s')
  {
    hide SlotOk, WorkerOk, Releasing;
    assert MainOk(s);
    match s.main {
      case Stop(_) => assert forall v :: 0 <= v < |s.workers| && s.workers[v].pc.Done? ==> s'.workers[v].pc.Done?;
      case Join(_) => assert forall v :: 0 <= v < |s.workers| && s.workers[v].pc.Done? ==> s'.workers[v].pc.Done?;
      case Sweep(_) => assert forall v :: 0 <= v < |s.workers| && s.workers[v].pc.Done? ==> s'.workers[v].pc.Done?;
      case Exit => assert forall v :: 0 <= v < |s.workers| && s.workers[v].pc.Done? ==> s'.workers[v].pc.Done?;
      case _ =>
    }
  }

  /** A slot assigned to a worker that is not releasing it has been taken by nobody. */
  lemma AssignedIsUntaken(s: State, w: nat, i: nat)
    requires Control(s) && w < |s.workers| && i < |s.slots|
    requires s.slots[i].thread == w + 1 && !Releasing(s.workers[w].pc, i)
    ensures s.slots[i].sock.Conn? && s.slots[i].owner == 0
  {
    hide MainOk;
    assert SlotOk(s, i);
    forall v | 0 <= v < |s.workers| ensures !Releasing(s.workers[v].pc, i) {
      assert WorkerOk(s, v);
    }
  }

  lemma WorkerTaking(s: State, w: nat, choice: nat)
    requires Control(s) && w < |s.workers| && (s.workers[w].pc.Copy? || s.workers[w].pc.DrainClose?)
    ensures var i := s.workers[w].pc.i; var s' := DoWorker(s, w, choice);
      WorkerEffect(s, s', w, i) && WorkerOk(s', w) && i < |s.slots| && SlotOk(s', i)
  {
    hide MainOk;
    assert WorkerOk(s, w);
    assert SlotOk(s, s.workers[w].pc.i);
  }

  lemma WorkerClearingThread(s: State, w: nat, choice: nat)
    requires Control(s) && w < |s.workers| && (s.workers[w].pc.ClearThread? || s.workers[w].pc.DrainThread?)
    ensures var i := s.workers[w].pc.i; var s' := DoWorker(s, w, choice);
      WorkerEffect(s, s', w, i) && WorkerOk(s', w) && i < |s.slots| && SlotOk(s', i)
  {
    hide MainOk;
    assert WorkerOk(s, w);
    assert SlotOk(s, s.workers[w].pc.i);
  }

  lemma WorkerClearingSocket(s: State, w: nat, choice: nat)
    requires Control(s) && w < |s.workers| && (s.workers[w].pc.ClearSocket? || s.workers[w].pc.DrainSocket?)
    ensures var i := s.workers[w].pc.i; var s' := DoWorker(s, w, choice);
      WorkerEffect(s, s', w, i) && WorkerOk(s', w) && i < |s.slots| && SlotOk(s', i)
  {
    hide MainOk;
    assert WorkerOk(s, w);
    assert SlotOk(s, s.workers[w].pc.i);
  }

  lemma WorkerScanning(s: State, w: nat, choice: nat)
    requires Control(s) && w < |s.workers| && (s.workers[w].pc.Adopt? || s.workers[w].pc.Drain?)
    ensures var s' := DoWorker(s, w, choice); WorkerEffect(s, s', w, |s.slots|) && WorkerOk(s', w)
  {
    hide MainOk, SlotOk;
    assert WorkerOk(s, w);
    var i := s.workers[w].pc.i;
    if i < |s.slots| && s.slots[i].thread == w + 1 {
      AssignedIsUntaken(s, w, i);
    }
  }

  lemma WorkerInLoop(s: State, w: nat, choice: nat)
    requires Control(s) && w < |s.workers|
    requires s.workers[w].pc.Top? || s.workers[w].pc.Serve?
    ensures var s' := DoWorker(s, w, choice); WorkerEffect(s, s', w, |s.slots|) && WorkerOk(s', w)
  {
    hide MainOk, SlotOk;
    assert WorkerOk(s, w);
  }

  lemma WorkerReading(s: State, w: nat, choice: nat)
    requires Control(s) && w < |s.workers| && (s.workers[w].pc.ReadId? || s.workers[w].pc.ReadActive?)
    ensures var s' := DoWorker(s, w, choice); WorkerEffect(s, s', w, |s.slots|) && WorkerOk(s', w)
  {
    hide MainOk, SlotOk;
    assert WorkerOk(s, w);
  }

  lemma WorkerBalancing(s: State, w: nat, choice: nat)
    requires Control(s) && w < |s.workers|
    requires var pc := s.workers[w].pc; pc.WriteId? || pc.WriteActive?
    ensures var s' := DoWorker(s, w, choice); WorkerEffect(s, s', w, |s.slots|) && WorkerOk(s', w)
  {
    hide MainOk, SlotOk;
    assert WorkerOk(s, w);
  }

  lemma WorkerLeaving(s: State, w: nat, choice: nat)
    requires Control(s) && w < |s.workers|
    requires var pc := s.workers[w].pc; pc.Leave? || pc.LeaveActive? || pc.Spin?
    ensures var s' := DoWorker(s, w, choice); WorkerEffect(s, s', w, |s.slots|) && WorkerOk(s', w)
  {
    hide MainOk, SlotOk;
    assert WorkerOk(s, w);
  }

  lemma WorkerAsking(s: State, w: nat, choice: nat)
    requires Control(s) && w < |s.workers| && (s.workers[w].pc.SpinKill? || s.workers[w].pc.DrainKill?)
    ensures var s' := DoWorker(s, w, choice); WorkerEffect(s, s', w, |s.slots|) && WorkerOk(s', w)
  {
    hide MainOk, SlotOk;
    assert WorkerOk(s, w);
  }

  lemma WorkerLeft(s: State, w: nat, choice: nat)
    requires Control(s) && w < |s.workers| && (s.workers[w].pc.CloseAll? || s.workers[w].pc.Done?)
    ensures var s' := DoWorker(s, w, choice); WorkerEffect(s, s', w, |s.slots|) && WorkerOk(s', w)
  {
    hide MainOk, SlotOk;
    assert WorkerOk(s, w);
  }

  /** The branch that hands waiting clients on to another worker is never taken. */
  lemma NeverReassigns(s: State, w: nat)
    requires Control(s) && w < |s.workers|
    ensures !s.workers[w].pc.Reassign?
  {
    assert WorkerOk(s, w);
  }

  /** Every step of a worker has this effect, with the slot i it works on, if it works on one. */
  lemma WorkerHasEffect(s: State, w: nat, choice: nat) returns (i: nat)
    requires Control(s) && w < |s.workers|
    ensures WorkerEffect(s, DoWorker(s, w, choice), w, i) && WorkerOk(DoWorker(s, w, choice), w)
    ensures i < |s.slots| ==> SlotOk(DoWorker(s, w, choice), i)
  {
    hide WorkerOk, SlotOk, MainOk, WorkerEffect, DoWorker, Releasing;
    i := |s.slots|;
    NeverReassigns(s, w);
    match s.workers[w].pc {
      case Copy(k) => i := k; WorkerTaking(s, w, choice);
      case ClearThread(k) => i := k; WorkerClearingThread(s, w, choice);
      case ClearSocket(k) => i := k; WorkerClearingSocket(s, w, choice);
      case DrainClose(k) => i := k; WorkerTaking(s, w, choice);
      case DrainThread(k) => i := k; WorkerClearingThread(s, w, choice);
      case DrainSocket(k) => i := k; WorkerClearingSocket(s, w, choice);
      case Adopt(_) => WorkerScanning(s, w, choice);
      case Drain(_) => WorkerScanning(s, w, choice);
      case Leave => WorkerLeaving(s, w, choice);
      case LeaveActive => WorkerLeaving(s, w, choice);
      case Spin => WorkerLeaving(s, w, choice);
      case SpinKill => WorkerAsking(s, w, choice);
      case DrainKill(_) => WorkerAsking(s, w, choice);
      case CloseAll => WorkerLeft(s, w, choice);
      case Done => WorkerLeft(s, w, choice);
      case ReadId => WorkerReading(s, w, choice);
      case ReadActive => WorkerReading(s, w, choice);
      case WriteId => WorkerBalancing(s, w, choice);
      case WriteActive => WorkerBalancing(s, w, choice);
      case _ => WorkerInLoop(s, w, choice);
    }
  }

  lemma WorkerKeeps(s: State, w: nat, choice: nat)
    requires Control(s) && w < |s.workers|
    ensures Control(DoWorker(s, w, choice))
  {
    hide WorkerOk, SlotOk, MainOk, WorkerEffect, DoWorker, Releasing;
    var s' := DoWorker(s, w, choice);
    var i := WorkerHasEffect(s, w, choice);
    WorkerEffectShape(s, s', w, i);
    WorkerKeepsMain(s, s', w, i);
    forall j | 0 <= j < |s.slots| ensures SlotOk(s', j) {
      if j != i {
        WorkerKeepsSlot(s, s', w, i, j);
      }
    }
    forall v | 0 <= v < |s.workers| ensures WorkerOk(s', v) {
      if v != w {
        WorkerKeepsOther(s, s', w, i, v);
      }
    }
  }

  lemma WorkerEffectShape(s: State, s': State, w: nat, i: nat)
    requires Shape(s) && w < |s.workers| && WorkerEffect(s, s', w, i)
    ensures Shape(s') && |s'.slots| == |s.slots| && |s'.workers| == |s.workers|
  {
  }

  // ---------------------------------------------------------------------------------------
  // The books
  // ---------------------------------------------------------------------------------------

  /** The numbers below n, once each. */
  function Ids(n: nat): multiset<nat> {
    if n == 0 then multiset{} else Ids(n - 1) + multiset{n - 1}
  }

  lemma {:induction false} IdsOnce(n: nat, id: nat)
    ensures Ids(n)[id] == if id < n then 1 else 0
  {
    if n > 0 {
      IdsOnce(n - 1, id);
    }
  }

  /** The connection of a slot, unless a worker has taken it already. */
  function Waiting(slot: Slot): multiset<nat> {
    if slot.owner == 0 then OneId(slot.sock) else multiset{}
  }

  function InQueue(slots: seq<Slot>): multiset<nat> {
    if slots == [] then multiset{} else InQueue(slots[..|slots| - 1]) + Waiting(slots[|slots| - 1])
  }

  function InBuffers(workers: seq<Worker>): multiset<nat> {
    if workers == [] then multiset{} else InBuffers(workers[..|workers| - 1]) + workers[|workers| - 1].held
  }

  lemma AddToBoth(m: multiset<nat>, n: multiset<nat>, a: multiset<nat>, b: multiset<nat>, more: multiset<nat>)
    requires m + a == n + b
    ensures (m + more) + a == (n + more) + b
  {
    forall e ensures ((m + more) + a)[e] == ((n + more) + b)[e] {
      assert (m + a)[e] == (n + b)[e];
    }
  }

  lemma {:induction false} InQueueUpdate(slots: seq<Slot>, i: nat, slot: Slot)
    requires i < |slots|
    ensures InQueue(slots[i := slot]) + Waiting(slots[i]) == InQueue(slots) + Waiting(slot)
    ensures Waiting(slots[i]) <= InQueue(slots)
    decreases |slots|
  {
    hide Waiting;
    var most, last := slots[..|slots| - 1], slots[|slots| - 1];
    var changed := slots[i := slot];
    if i < |slots| - 1 {
      InQueueUpdate(most, i, slot);
      AddToBoth(InQueue(most[i := slot]), InQueue(most), Waiting(slots[i]), Waiting(slot), Waiting(last));
      assert changed[..|slots| - 1] == most[i := slot] && changed[|slots| - 1] == last;
      assert InQueue(changed) == InQueue(most[i := slot]) + Waiting(last);
    } else {
      assert changed[..|slots| - 1] == most && changed[|slots| - 1] == slot;
      assert InQueue(changed) == InQueue(most) + Waiting(slot);
    }
  }

  lemma {:induction false} InBuffersUpdate(workers: seq<Worker>, w: nat, worker: Worker)
    requires w < |workers|
    ensures InBuffers(workers[w := worker]) + workers[w].held == InBuffers(workers) + worker.held
    ensures workers[w].held <= InBuffers(workers)
    decreases |workers|
  {
    var most, last := workers[..|workers| - 1], workers[|workers| - 1];
    var changed := workers[w := worker];
    if w < |workers| - 1 {
      InBuffersUpdate(most, w, worker);
      AddToBoth(InBuffers(most[w := worker]), InBuffers(most), workers[w].held, worker.held, last.held);
      assert changed[..|workers| - 1] == most[w := worker] && changed[|workers| - 1] == last;
      assert InBuffers(changed) == InBuffers(most[w := worker]) + last.held;
    } else {
      assert changed[..|workers| - 1] == most && changed[|workers| - 1] == worker;
      assert InBuffers(changed) == InBuffers(most) + worker.held;
    }
  }

  /**
    Every accepted connection is in exactly one place: waiting in a slot, adopted by a worker
    or closed from the queue; and the adopted ones are in a client buffer or closed from it.
   */
  predicate Books(s: State) {
    && Ids(s.accepted) == InQueue(s.slots) + s.adopted + s.closedQueue
    && s.adopted == InBuffers(s.workers) + s.closedHeld
  }

  /**
    One entry in the books: of what waited in slot i, `taken` goes to worker w and `swept` is
    closed; worker w closes `finished`.
   */
  lemma Entry(s: State, s': State, i: nat, w: nat, taken: multiset<nat>, swept: multiset<nat>, finished: multiset<nat>)
    requires Books(s) && i < |s.slots| && w < |s.workers| && s'.accepted == s.accepted
    requires i < |s'.slots| && s'.slots == s.slots[i := s'.slots[i]]
    requires w < |s'.workers| && s'.workers == s.workers[w := s'.workers[w]]
    requires Waiting(s.slots[i]) == Waiting(s'.slots[i]) + taken + swept
    requires s'.workers[w].held + finished == s.workers[w].held + taken
    requires s'.adopted == s.adopted + taken
    requires s'.closedQueue == s.closedQueue + swept && s'.closedHeld == s.closedHeld + finished
    ensures Books(s')
  {
    hide Waiting, InQueue, InBuffers, Ids;
    InQueueUpdate(s.slots, i, s'.slots[i]);
    InBuffersUpdate(s.workers, w, s'.workers[w]);
    QueueEntry(InQueue(s.slots), InQueue(s'.slots), Waiting(s.slots[i]), Waiting(s'.slots[i]), taken, swept,
               Ids(s.accepted), s.adopted, s.closedQueue);
    BufferEntry(InBuffers(s.workers), InBuffers(s'.workers), s.workers[w].held, s'.workers[w].held, taken, finished,
                s.adopted, s.closedHeld);
  }

  /** What leaves the queue is adopted or closed. */
  lemma QueueEntry(q: multiset<nat>, q': multiset<nat>, was: multiset<nat>, now: multiset<nat>, taken: multiset<nat>,
                   swept: multiset<nat>, ids: multiset<nat>, adopted: multiset<nat>, closed: multiset<nat>)
    requires q' + was == q + now && was == now + taken + swept && ids == q + adopted + closed
    ensures ids == q' + (adopted + taken) + (closed + swept)
  {
    forall e ensures ids[e] == (q' + (adopted + taken) + (closed + swept))[e] {
      assert (q' + was)[e] == (q + now)[e];
      assert was[e] == (now + taken + swept)[e];
      assert ids[e] == (q + adopted + closed)[e];
    }
  }

  /** What is adopted is in a buffer or has been closed there. */
  lemma BufferEntry(b: multiset<nat>, b': multiset<nat>, was: multiset<nat>, now: multiset<nat>, taken: multiset<nat>,
                    finished: multiset<nat>, adopted: multiset<nat>, closed: multiset<nat>)
    requires b' + was == b + now && now + finished == was + taken && adopted == b + closed
    ensures adopted + taken == b' + (closed + finished)
  {
    forall e ensures (adopted + taken)[e] == (b' + (closed + finished))[e] {
      assert (b' + was)[e] == (b + now)[e];
      assert (now + finished)[e] == (was + taken)[e];
      assert adopted[e] == (b + closed)[e];
    }
  }

  /** What a worker books when it copies a connection out of the queue, or closes it there. */
  lemma BooksTaking(s: State, w: nat, choice: nat)
    requires Control(s) && Books(s) && w < |s.workers|
    requires s.workers[w].pc.Copy? || s.workers[w].pc.DrainClose?
    ensures Books(DoWorker(s, w, choice))
  {
    hide MainOk, SlotOk, Books, Releasing;
    assert WorkerOk(s, w);
    var s', pc := DoWorker(s, w, choice), s.workers[w].pc;
    var one, none := OneId(s.slots[pc.i].sock), multiset{};
    assert Waiting(s.slots[pc.i]) == one && Waiting(s'.slots[pc.i]) == none;
    if pc.Copy? {
      Entry(s, s', pc.i, w, one, none, none);
    } else {
      Entry(s, s', pc.i, w, none, one, none);
    }
  }

  /** The connection of a slot that is being cleared has been taken. */
  lemma NothingToTake(s: State, w: nat, choice: nat)
    requires Control(s) && w < |s.workers|
    requires var pc := s.workers[w].pc; pc.ClearThread? || pc.ClearSocket? || pc.DrainThread? || pc.DrainSocket?
    ensures var s', i := DoWorker(s, w, choice), s.workers[w].pc.i;
      i < |s.slots| && |s'.slots| == |s.slots| && Waiting(s.slots[i]) == Waiting(s'.slots[i]) == multiset{}
  {
    hide MainOk, SlotOk, Releasing;
    assert WorkerOk(s, w);
  }

  lemma BooksClearing(s: State, w: nat, choice: nat)
    requires Control(s) && Books(s) && w < |s.workers|
    requires var pc := s.workers[w].pc; pc.ClearThread? || pc.ClearSocket? || pc.DrainThread? || pc.DrainSocket?
    ensures Books(DoWorker(s, w, choice))
  {
    hide Control, Books, Waiting;
    ControlShape(s);
    NothingToTake(s, w, choice);
    var s', i := DoWorker(s, w, choice), s.workers[w].pc.i;
    Entry(s, s', i, w, multiset{}, multiset{}, multiset{});
  }

  lemma BooksClosing(s: State, w: nat, choice: nat)
    requires Control(s) && Books(s) && w < |s.workers|
    requires s.workers[w].pc.Serve? || s.workers[w].pc.CloseAll?
    ensures Books(DoWorker(s, w, choice))
  {
    hide MainOk, SlotOk, WorkerOk, Books, Waiting;
    var s', held := DoWorker(s, w, choice), s.workers[w].held;
    if choice in held {
      assert (held - multiset{choice}) + multiset{choice} == held;
      Entry(s, s', 0, w, multiset{}, multiset{}, multiset{choice});
    } else {
      Entry(s, s', 0, w, multiset{}, multiset{}, multiset{});
    }
  }

  /** Every other step of a worker leaves slots and client buffers alone. */
  lemma BooksMoving(s: State, w: nat, choice: nat)
    requires Control(s) && Books(s) && w < |s.workers|
    requires var pc := s.workers[w].pc;
      pc.Top? || pc.Adopt? || pc.ReadId? || pc.ReadActive? || pc.WriteId? || pc.WriteActive?
      || pc.Leave? || pc.LeaveActive? || pc.Spin? || pc.SpinKill? || pc.Drain? || pc.DrainKill? || pc.Done?
    ensures Books(DoWorker(s, w, choice))
  {
    hide MainOk, SlotOk, WorkerOk, Books, Waiting;
    var s' := DoWorker(s, w, choice);
    assert s'.workers[w].held == s.workers[w].held && s'.slots == s.slots;
    assert s'.workers == s.workers[w := s'.workers[w]];
    hide DoWorker, Go, INT_MAX;
    Entry(s, s', 0, w, multiset{}, multiset{}, multiset{});
  }

  lemma BooksWorker(s: State, w: nat, choice: nat)
    requires Control(s) && Books(s) && w < |s.workers|
    ensures Books(DoWorker(s, w, choice))
  {
    hide Control, Books, DoWorker;
    NeverReassigns(s, w);
    match s.workers[w].pc {
      case Copy(_) => BooksTaking(s, w, choice);
      case DrainClose(_) => BooksTaking(s, w, choice);
      case ClearThread(_) => BooksClearing(s, w, choice);
      case ClearSocket(_) => BooksClearing(s, w, choice);
      case DrainThread(_) => BooksClearing(s, w, choice);
      case DrainSocket(_) => BooksClearing(s, w, choice);
      case Serve => BooksClosing(s, w, choice);
      case CloseAll => BooksClosing(s, w, choice);
      case _ => BooksMoving(s, w, choice);
    }
  }

  predicate AssignedTo(slot: Slot, tid: nat) {
    slot.thread == tid
  }

  /** When every worker has left, the queue is empty: the last sweep finds nothing to close. */
  lemma NothingLeft(s: State, j: nat)
    requires Control(s) && (s.main.Sweep? || s.main.Exit?) && j < |s.slots|
    ensures s.slots[j] == Slot(0, Empty, 0)
  {
    hide Releasing, Late;
    assert SlotOk(s, j);
    forall tid: nat | 1 <= tid <= |s.workers| ensures !AssignedTo(s.slots[j], tid) {
      assert WorkerOk(s, tid - 1) && s.workers[tid - 1].pc.Done?;
    }
    forall v | 0 <= v < |s.workers| ensures !Releasing(s.workers[v].pc, j) {
      assert WorkerOk(s, v);
      DoneReleasesNothing(s.workers[v].pc, j);
    }
    assert AssignedTo(s.slots[j], s.slots[j].thread);
  }

  lemma DoneReleasesNothing(pc: WorkerPc, j: nat)
    requires pc.Done?
    ensures !Releasing(pc, j)
  {
  }

  /** What waits in the slot the acceptor works on changes only when a connection is accepted. */
  lemma AtSlot(s: State, ok: bool)
    requires Control(s) && (s.main.Clear? || s.main.Accept? || s.main.Failed? || s.main.Assign?)
    ensures s.main.i < |s.slots|
    ensures s.main.Accept? ==> Waiting(s.slots[s.main.i]) == multiset{}
    ensures var s' := DoMain(s, ok);
      && |s'.slots| == |s.slots| && s'.slots == s.slots[s.main.i := s'.slots[s.main.i]]
      && Waiting(s'.slots[s.main.i]) ==
        if s.main.Accept? && ok then multiset{s.accepted} else Waiting(s.slots[s.main.i])
  {
    hide WorkerOk, Releasing;
    assert SlotOk(s, s.main.i);
  }

  lemma BooksAccept(s: State, s': State, i: nat)
    requires Books(s) && i < |s.slots| && Waiting(s.slots[i]) == multiset{}
    requires |s'.slots| == |s.slots| && s'.slots == s.slots[i := s'.slots[i]]
    requires Waiting(s'.slots[i]) == multiset{s.accepted} && s'.accepted == s.accepted + 1
    requires s'.workers == s.workers && s'.adopted == s.adopted
    requires s'.closedHeld == s.closedHeld && s'.closedQueue == s.closedQueue
    ensures Books(s')
  {
    hide Waiting, InQueue, InBuffers;
    InQueueUpdate(s.slots, i, s'.slots[i]);
    assert InQueue(s'.slots) == InQueue(s.slots) + multiset{s.accepted};
    assert Ids(s'.accepted) == Ids(s.accepted) + multiset{s.accepted};
  }

  lemma BooksSlot(s: State, ok: bool)
    requires Control(s) && Books(s)
    requires s.main.Clear? || s.main.Accept? || s.main.Failed? || s.main.Assign?
    ensures Books(DoMain(s, ok))
  {
    hide Control, Books, Waiting;
    ControlShape(s);
    AtSlot(s, ok);
    var s', i := DoMain(s, ok), s.main.i;
    if s.main.Accept? && ok {
      BooksAccept(s, s', i);
    } else {
      Entry(s, s', i, 0, multiset{}, multiset{}, multiset{});
    }
  }

  lemma BooksSweep(s: State, ok: bool)
    requires Control(s) && Books(s) && s.main.Sweep?
    ensures Books(DoMain(s, ok))
  {
    hide WorkerOk, SlotOk, Books, Waiting;
    var s' := DoMain(s, ok);
    if s.main.i < |s.slots| {
      NothingLeft(s, s.main.i);
    }
    hide MainOk;
    Entry(s, s', 0, 0, multiset{}, multiset{}, multiset{});
  }

  lemma BooksMain(s: State, ok: bool)
    requires Control(s) && Books(s)
    ensures Books(DoMain(s, ok))
  {
    hide Control, Books, Waiting;
    ControlShape(s);
    if s.main.Clear? || s.main.Accept? || s.main.Failed? || s.main.Assign? {
      BooksSlot(s, ok);
    } else if s.main.Sweep? {
      BooksSweep(s, ok);
    } else {
      Entry(s, DoMain(s, ok), 0, 0, multiset{}, multiset{}, multiset{});
    }
  }

  // ---------------------------------------------------------------------------------------
  // Runs
  // ---------------------------------------------------------------------------------------

  predicate Inv(s: State) {
    Control(s) && Books(s)
  }

  lemma {:induction false} NobodyHolds(workers: seq<Worker>)
    requires forall w :: 0 <= w < |workers| ==> workers[w].held == multiset{}
    ensures InBuffers(workers) == multiset{}
  {
    if workers != [] {
      NobodyHolds(workers[..|workers| - 1]);
    }
  }

  lemma {:induction false} NothingWaits(slots: seq<Slot>)
    requires forall j :: 0 <= j < |slots| ==> slots[j] == Slot(0, Empty, 0)
    ensures InQueue(slots) == multiset{}
  {
    if slots != [] {
      NothingWaits(slots[..|slots| - 1]);
    }
  }

  lemma InitInv(s: State)
    requires Starts(s)
    ensures Inv(s)
  {
    NobodyHolds(s.workers);
    NothingWaits(s.slots);
    assert Ids(0) == multiset{};
    assert MainOk(s);
    forall j | 0 <= j < |s.slots| ensures SlotOk(s, j) {}
    forall w | 0 <= w < |s.workers| ensures WorkerOk(s, w) {}
  }

  ghost function Start(s: State): (r: State)
    requires Starts(s)
    ensures Inv(r) && r == s
  {
    InitInv(s);
    s
  }

  lemma SignalKeeps(s: State)
    requires Inv(s)
    ensures Inv(s.(kill := true))
  {
    var s' := s.(kill := true);
    assert Books(s') && MainOk(s');
    hide Books, MainOk;
    forall j | 0 <= j < |s.slots| ensures SlotOk(s', j) {
      assert SlotOk(s, j);
    }
    forall w | 0 <= w < |s.workers| ensures WorkerOk(s', w) {
      assert WorkerOk(s, w);
    }
  }

  lemma StepKeeps(s: State, a: Action)
    requires Inv(s)
    ensures Inv(Do(s, a))
  {
    hide Control, Books, DoMain, DoWorker;
    match a
    case Signal => SignalKeeps(s);
    case MainStep(ok) => MainKeeps(s, ok); BooksMain(s, ok);
    case WorkerStep(w, choice) =>
      ControlShape(s);
      if w < |s.workers| {
        WorkerKeeps(s, w, choice);
        BooksWorker(s, w, choice);
      }
  }

  lemma ControlShape(s: State)
    requires Control(s)
    ensures Shape(s)
  {
  }

  /** The state after any sequence of steps, in any order. */
  ghost function Run(s: State, actions: seq<Action>): (r: State)
    requires Inv(s)
    ensures Inv(r)
    decreases |actions|
  {
    if actions == [] then s
    else
      StepKeeps(s, actions[0]);
      Run(Do(s, actions[0]), actions[1..])
  }

  /**
    In every interleaving each accepted connection is adopted at most once, by one worker, and
    closed at most once; accepted = waiting + held + closed, at every moment.
   */
  lemma AdoptedOnce(start: State, actions: seq<Action>, id: nat)
    requires Starts(start)
    ensures var s := Run(Start(start), actions);
      && s.adopted[id] <= 1 && (s.closedHeld + s.closedQueue)[id] <= 1
      && InQueue(s.slots)[id] + InBuffers(s.workers)[id] + (s.closedHeld + s.closedQueue)[id] ==
        (if id < s.accepted then 1 else 0)
  {
    var s := Run(Start(start), actions);
    IdsOnce(s.accepted, id);
    hide Control, Run, InQueue, InBuffers, Ids;
    assert Ids(s.accepted)[id] == (InQueue(s.slots) + s.adopted + s.closedQueue)[id];
    assert s.adopted[id] == (InBuffers(s.workers) + s.closedHeld)[id];
  }

  /** The queue is empty and no worker holds anything when the program exits. */
  lemma NothingKept(s: State)
    requires Inv(s) && s.main.Exit?
    ensures InQueue(s.slots) == multiset{} && InBuffers(s.workers) == multiset{}
  {
    hide MainOk, SlotOk, Books, InQueue, InBuffers;
    forall j | 0 <= j < |s.slots| ensures s.slots[j] == Slot(0, Empty, 0) {
      NothingLeft(s, j);
    }
    NothingWaits(s.slots);
    forall w | 0 <= w < |s.workers| ensures s.workers[w].held == multiset{} {
      AllDone(s, w);
    }
    NobodyHolds(s.workers);
  }

  lemma AllDone(s: State, w: nat)
    requires Control(s) && (s.main.Sweep? || s.main.Exit?) && w < |s.workers|
    ensures s.workers[w].pc.Done? && s.workers[w].held == multiset{}
  {
    hide SlotOk;
    assert WorkerOk(s, w);
  }

  /** When the program exits, every accepted connection has been closed exactly once. */
  lemma ClosedOnce(start: State, actions: seq<Action>, id: nat)
    requires Starts(start)
    ensures var s := Run(Start(start), actions);
      s.main.Exit? ==> (s.closedHeld + s.closedQueue)[id] == if id < s.accepted then 1 else 0
  {
    hide Control, Books, Run, Start;
    var s := Run(Start(start), actions);
    if s.main.Exit? {
      AdoptedOnce(start, actions, id);
      NothingKept(s);
    }
  }

  /** LAZIEST_WORKER always names a worker, however its two halves are written. */
  lemma LaziestIsWorker(start: State, actions: seq<Action>)
    requires Starts(start)
    ensures var s := Run(Start(start), actions);
      1 <= s.laziest.threadID <= |s.workers|
  {
    ControlShape(Run(Start(start), actions));
  }

  /** n steps of worker w while everybody else stands still. */
  ghost function Alone(s: State, w: nat, n: nat): (r: State)
    requires Inv(s) && w < |s.workers|
    ensures Inv(r)
  {
    Run(s, seq(n, i => WorkerStep(w, 0)))
  }

  lemma AloneAgain(s: State, s': State, w: nat, n: nat)
    requires Inv(s) && w < |s.workers| && n > 0 && s' == DoWorker(s, w, 0) && |s'.workers| == |s.workers|
    ensures Inv(s') && Alone(s, w, n) == Alone(s', w, n - 1)
  {
    hide Inv, DoWorker;
    StepKeeps(s, WorkerStep(w, 0));
    assert seq(n, i => WorkerStep(w, 0))[1..] == seq(n - 1, i => WorkerStep(w, 0));
  }

  /** What the steps from reading the record to writing it do to the record and to the worker. */
  lemma RecordStep(s: State, w: nat)
    requires Inv(s) && w < |s.workers|
    requires var pc := s.workers[w].pc; pc.ReadId? || pc.ReadActive? || pc.WriteId? || pc.WriteActive?
    ensures var l, pc, held := s.laziest, s.workers[w].pc, |s.workers[w].held|;
      DoWorker(s, w, 0) ==
        if pc.ReadId? then Go(s, w, if l.threadID == w + 1 then WriteId else ReadActive)
        else if pc.ReadActive? then Go(s, w, if l.activeSockets > held then WriteId else Serve)
        else if pc.WriteId? then Go(s.(laziest := l.(threadID := w + 1)), w, WriteActive)
        else Go(s.(laziest := l.(activeSockets := held)), w, Serve)
  {
    hide Control, Books;
  }

  lemma WritesRecord(s: State, w: nat)
    requires Inv(s) && w < |s.workers| && s.workers[w].pc == WriteId
    ensures Alone(s, w, 2) == Go(s.(laziest := Laziest(w + 1, |s.workers[w].held|)), w, Serve)
  {
    hide Inv, DoWorker, Alone;
    var s1 := Go(s.(laziest := s.laziest.(threadID := w + 1)), w, WriteActive);
    var s2 := Go(s1.(laziest := Laziest(w + 1, |s.workers[w].held|)), w, Serve);
    RecordStep(s, w);
    AloneAgain(s, s1, w, 2);
    RecordStep(s1, w);
    AloneAgain(s1, s2, w, 1);
    AloneNever(s2, w);
    assert s2.workers == s.workers[w := s.workers[w].(pc := Serve)];
  }

  lemma AloneNever(s: State, w: nat)
    requires Inv(s) && w < |s.workers|
    ensures Alone(s, w, 0) == s
  {
    hide Inv;
    assert seq(0, i => WorkerStep(w, 0)) == [];
  }

  /** Undisturbed, the reads and writes of a worker amount to one update of the record. */
  lemma UpdatesRecord(s: State, w: nat)
    requires Inv(s) && w < |s.workers| && s.workers[w].pc == ReadId
    ensures exists n: nat ::
      (Alone(s, w, n) == Go(s.(laziest := Update(s.laziest, w + 1, |s.workers[w].held|)), w, Serve))
  {
    hide Inv, DoWorker, Alone;
    var held, l := |s.workers[w].held|, s.laziest;
    var next := s.workers[w := s.workers[w].(pc := Serve)];
    var s1 := Go(s, w, if l.threadID == w + 1 then WriteId else ReadActive);
    RecordStep(s, w);
    if l.threadID == w + 1 {
      AloneAgain(s, s1, w, 3);
      WritesRecord(s1, w);
      assert Alone(s, w, 3).workers == next;
    } else {
      var s2 := Go(s1, w, if l.activeSockets > held then WriteId else Serve);
      AloneAgain(s, s1, w, 2);
      RecordStep(s1, w);
      AloneAgain(s1, s2, w, 1);
      if l.activeSockets > held {
        AloneAgain(s, s1, w, 4);
        AloneAgain(s1, s2, w, 3);
        WritesRecord(s2, w);
        assert Alone(s, w, 4).workers == next;
      } else {
        AloneNever(s2, w);
        assert Alone(s, w, 2).workers == next;
      }
    }
  }
}
