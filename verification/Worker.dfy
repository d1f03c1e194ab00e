/**
  The loop of one worker thread (thread.c): its client buffer, the adoption of connections
  from the accept queue, and the counter that times a silent client out.

  What the worker finds in the shared queue is a parameter of each pass, because the acceptor
  and the other workers write there: how many connections it counts, and which connections are
  assigned to it when it comes to copy them. How these can vary is the matter of AcceptQueue.
 */
module Worker {
  import opened Limits
  import opened LoadBalance

  /**
    An entry of the client buffer, free when `socket` is 0. `since` is not in the program: the
    pass that adopted it.
   */
  datatype Client = Client(socket: nat, recv_iter: nat, since: nat)

  function One(client: Client): multiset<nat> {
    if client.socket != 0 then multiset{client.socket} else multiset{}
  }

  /** The connections in the buffer. */
  function Sockets(clients: seq<Client>): multiset<nat> {
    if clients == [] then multiset{} else Sockets(clients[..|clients| - 1]) + One(clients[|clients| - 1])
  }

  /** Every connection has been counted up once in each pass since it was adopted. */
  predicate Aged(clients: seq<Client>, passes: nat) {
    forall k :: 0 <= k < |clients| && clients[k].socket != 0 ==> clients[k].recv_iter + clients[k].since == passes
  }

  predicate InTime(clients: seq<Client>) {
    forall k :: 0 <= k < |clients| && clients[k].socket != 0 ==> clients[k].recv_iter <= MAX_RECV_ITER
  }

  lemma SocketsPrefix(clients: seq<Client>, i: nat)
    requires i < |clients|
    ensures Sockets(clients[..i + 1]) == Sockets(clients[..i]) + One(clients[i])
  {
    assert clients[..i + 1][..i] == clients[..i];
  }

  lemma {:induction false} SocketsUpdate(clients: seq<Client>, i: nat, client: Client)
    requires i < |clients|
    ensures Sockets(clients[i := client]) + One(clients[i]) == Sockets(clients) + One(client)
    decreases |clients|
  {
    hide One;
    var most, last := clients[..|clients| - 1], clients[|clients| - 1];
    var changed := clients[i := client];
    if i < |clients| - 1 {
      SocketsUpdate(most, i, client);
      assert changed[..|clients| - 1] == most[i := client] && changed[|clients| - 1] == last;
      assert Sockets(changed) + One(clients[i]) == (Sockets(most[i := client]) + One(clients[i])) + One(last);
    } else {
      assert changed[..|clients| - 1] == most && changed[|clients| - 1] == client;
    }
  }

  lemma SocketsSame(clients: seq<Client>, i: nat, client: Client)
    requires i < |clients| && client.socket == clients[i].socket
    ensures Sockets(clients[i := client]) == Sockets(clients)
  {
    hide Sockets;
    SocketsUpdate(clients, i, client);
    assert (Sockets(clients[i := client]) + One(client)) - One(client) == Sockets(clients[i := client]);
    assert (Sockets(clients) + One(client)) - One(client) == Sockets(clients);
  }

  /** Free entries at the end add nothing. */
  lemma {:induction false} SocketsGrow(clients: seq<Client>, more: seq<Client>)
    requires forall k :: 0 <= k < |more| ==> more[k].socket == 0
    ensures Sockets(clients + more) == Sockets(clients)
    decreases |more|
  {
    if more == [] {
      assert clients + more == clients;
    } else {
      SocketsGrow(clients, more[..|more| - 1]);
      assert (clients + more)[..|clients + more| - 1] == clients + more[..|more| - 1];
    }
  }

  lemma {:induction false} NoSockets(clients: seq<Client>)
    requires forall k :: 0 <= k < |clients| ==> clients[k].socket == 0
    ensures Sockets(clients) == multiset{}
  {
    if clients != [] {
      NoSockets(clients[..|clients| - 1]);
    }
  }

  lemma TakeOne(offered: seq<nat>, i: nat)
    requires i < |offered|
    ensures multiset(offered[..i + 1]) == multiset(offered[..i]) + multiset{offered[i]}
  {
    assert offered[..i + 1] == offered[..i] + [offered[i]];
  }

  /** Every connection in `after` was in the same entry before, or is one of those offered now. */
  predicate Traced(before: seq<Client>, after: seq<Client>, offered: multiset<nat>, passes: nat) {
    forall k :: 0 <= k < |after| && after[k].socket != 0 ==>
      || (k < |before| && before[k].socket == after[k].socket && before[k].since == after[k].since)
      || (after[k].since == passes && after[k].socket in offered)
  }

  /** No connection is overwritten. */
  predicate Untouched(before: seq<Client>, after: seq<Client>) {
    |before| <= |after| && forall k :: 0 <= k < |before| && before[k].socket != 0 ==> after[k] == before[k]
  }

  lemma StoreKeeps(before: seq<Client>, clients: seq<Client>, c: nat, socket: nat, offered: multiset<nat>, passes: nat)
    requires c < |clients| && clients[c].socket == 0 && socket != 0
    requires Untouched(before, clients) && Traced(before, clients, offered, passes)
    ensures Untouched(before, clients[c := Client(socket, 0, passes)])
    ensures Traced(before, clients[c := Client(socket, 0, passes)], offered + multiset{socket}, passes)
  {
  }

  // ---------------------------------------------------------------------------------------
  // By the pass that adopted them
  // ---------------------------------------------------------------------------------------

  function Without(client: Client, out: bool): Client {
    if out then client.(socket := 0) else client
  }

  /** The connections adopted in pass `from` or later, and those adopted before it. */
  function Young(clients: seq<Client>, from: nat): multiset<nat> {
    Sockets(seq(|clients|, i requires 0 <= i < |clients| => Without(clients[i], clients[i].since < from)))
  }

  function Elder(clients: seq<Client>, from: nat): multiset<nat> {
    Sockets(seq(|clients|, i requires 0 <= i < |clients| => Without(clients[i], clients[i].since >= from)))
  }

  /** What pass `passes` adds to the connections adopted in pass `from` or later. */
  function New(offered: seq<nat>, passes: nat, from: nat): multiset<nat> {
    if from <= passes then multiset(offered) else multiset{}
  }

  /** Entry by entry the same connections, and nothing behind. */
  lemma {:induction false} SocketsAlike(a: seq<Client>, b: seq<Client>)
    requires |a| <= |b| && forall k :: 0 <= k < |a| ==> a[k].socket == b[k].socket
    requires forall k :: |a| <= k < |b| ==> b[k].socket == 0
    ensures Sockets(a) == Sockets(b)
    decreases |b|
  {
    if |a| < |b| {
      SocketsAlike(a, b[..|b| - 1]);
    } else if a != [] {
      SocketsAlike(a[..|a| - 1], b[..|b| - 1]);
    }
  }

  lemma {:induction false} SocketsFewer(a: seq<Client>, b: seq<Client>)
    requires |a| == |b| && forall k :: 0 <= k < |a| ==> b[k].socket == a[k].socket || b[k].socket == 0
    ensures Sockets(b) <= Sockets(a)
  {
    if a != [] {
      SocketsFewer(a[..|a| - 1], b[..|b| - 1]);
    }
  }

  lemma {:induction false} SocketsSplit(clients: seq<Client>, a: seq<Client>, b: seq<Client>, from: nat)
    requires |a| == |b| == |clients|
    requires forall k :: 0 <= k < |clients| ==>
      a[k] == Without(clients[k], clients[k].since < from) && b[k] == Without(clients[k], clients[k].since >= from)
    ensures Sockets(a) + Sockets(b) == Sockets(clients)
  {
    if clients != [] {
      var n := |clients| - 1;
      SocketsSplit(clients[..n], a[..n], b[..n], from);
      assert One(a[n]) + One(b[n]) == One(clients[n]);
    }
  }

  lemma YoungAndElder(clients: seq<Client>, from: nat)
    ensures Young(clients, from) + Elder(clients, from) == Sockets(clients)
  {
    hide Sockets;
    SocketsSplit(clients,
      seq(|clients|, i requires 0 <= i < |clients| => Without(clients[i], clients[i].since < from)),
      seq(|clients|, i requires 0 <= i < |clients| => Without(clients[i], clients[i].since >= from)), from);
  }

  /** Adopting in pass `passes` changes nothing about the connections adopted before it, or meant to be after it. */
  lemma AdoptedYoung(before: seq<Client>, after: seq<Client>, offered: multiset<nat>, passes: nat, from: nat)
    requires Untouched(before, after) && Traced(before, after, offered, passes)
    requires forall k :: 0 <= k < |before| && before[k].socket != 0 ==> before[k].since <= passes
    requires Sockets(after) == Sockets(before) + offered
    ensures Young(after, from) == Young(before, from) + if from <= passes then offered else multiset{}
  {
    hide Sockets;
    YoungAndElder(before, from);
    YoungAndElder(after, from);
    if from <= passes {
      SocketsAlike(
        seq(|before|, i requires 0 <= i < |before| => Without(before[i], before[i].since >= from)),
        seq(|after|, i requires 0 <= i < |after| => Without(after[i], after[i].since >= from)));
      assert Elder(after, from) == Elder(before, from);
      assert Young(after, from) == Sockets(after) - Elder(after, from);
    } else {
      SocketsAlike(
        seq(|before|, i requires 0 <= i < |before| => Without(before[i], before[i].since < from)),
        seq(|after|, i requires 0 <= i < |after| => Without(after[i], after[i].since < from)));
    }
  }

  /** Counting passes and closing bring no connection in. */
  lemma ServedYoung(before: seq<Client>, after: seq<Client>, from: nat)
    requires |before| == |after|
    requires forall k :: 0 <= k < |before| ==>
      after[k].since == before[k].since && (after[k].socket == before[k].socket || after[k].socket == 0)
    ensures Young(after, from) <= Young(before, from)
  {
    hide Sockets;
    SocketsFewer(
      seq(|before|, i requires 0 <= i < |before| => Without(before[i], before[i].since < from)),
      seq(|after|, i requires 0 <= i < |after| => Without(after[i], after[i].since < from)));
  }

  lemma YoungIsHeld(clients: seq<Client>, from: nat)
    ensures Young(clients, from) <= Sockets(clients)
  {
    YoungAndElder(clients, from);
  }

  /** Where all are young, that is everybody; where none is, nobody. */
  lemma AllYoung(clients: seq<Client>, from: nat)
    ensures (forall k :: 0 <= k < |clients| && clients[k].socket != 0 ==> clients[k].since >= from) ==>
      Young(clients, from) == Sockets(clients)
    ensures (forall k :: 0 <= k < |clients| && clients[k].socket != 0 ==> clients[k].since < from) ==>
      Young(clients, from) == multiset{}
  {
    hide Sockets;
    var young := seq(|clients|, i requires 0 <= i < |clients| => Without(clients[i], clients[i].since < from));
    if forall k :: 0 <= k < |clients| && clients[k].socket != 0 ==> clients[k].since >= from {
      SocketsAlike(young, clients);
    }
    if forall k :: 0 <= k < |clients| && clients[k].socket != 0 ==> clients[k].since < from {
      NoSockets(young);
    }
  }

  /**
    The offered connections go to free entries, to start with no pass; nobody else moves.
   */
  ghost predicate Adopting(before: seq<Client>, adopted: seq<Client>, offered: seq<nat>, passes: nat) {
    && Untouched(before, adopted)
    && Sockets(adopted) == Sockets(before) + multiset(offered)
    && forall k :: 0 <= k < |adopted| && adopted[k].socket != 0 ==>
         (k < |before| && adopted[k] == before[k]) || adopted[k] == Client(adopted[k].socket, 0, passes)
  }

  /**
    The rest of a pass: a connection is closed when it is done with or has been through 200
    passes before; else it stays, one pass older.
   */
  ghost predicate Ending(adopted: seq<Client>, after: seq<Client>, answered: nat -> bool) {
    && |after| == |adopted|
    && forall k :: 0 <= k < |adopted| ==>
         if adopted[k].socket == 0 || answered(k) || adopted[k].recv_iter >= MAX_RECV_ITER then after[k].socket == 0
         else after[k] == adopted[k].(recv_iter := adopted[k].recv_iter + 1)
  }

  lemma AdoptedNew(before: seq<Client>, adopted: seq<Client>, offered: seq<nat>, passes: nat)
    requires Untouched(before, adopted) && Traced(before, adopted, multiset(offered), passes) && Aged(adopted, passes)
    requires Aged(before, passes) && Sockets(adopted) == Sockets(before) + multiset(offered)
    ensures Adopting(before, adopted, offered, passes)
  {
    hide Sockets;
  }

  /** Where nobody is done with, everybody stays who still has passes left. */
  lemma QuietYoung(adopted: seq<Client>, after: seq<Client>, answered: nat -> bool, passes: nat, from: nat)
    requires Aged(adopted, passes) && Ending(adopted, after, answered) && passes - from < MAX_RECV_ITER
    requires forall k: nat :: !answered(k)
    requires forall k :: 0 <= k < |adopted| ==> after[k].since == adopted[k].since
    ensures Young(after, from) == Young(adopted, from)
  {
    hide Sockets;
    SocketsAlike(
      seq(|adopted|, i requires 0 <= i < |adopted| => Without(adopted[i], adopted[i].since < from)),
      seq(|after|, i requires 0 <= i < |after| => Without(after[i], after[i].since < from)));
  }

  /** What a worker comes by in one pass. */
  datatype Turn = Turn(queued: nat, offered: seq<nat>, answered: nat -> bool, laziest: Laziest)

  /** Nobody is done with. */
  ghost predicate Quiet(turn: Turn) {
    forall k: nat :: !turn.answered(k)
  }

  predicate Sound(turn: Turn) {
    forall k :: 0 <= k < |turn.offered| ==> turn.offered[k] != 0
  }

  /** All connections offered in these passes. */
  function Offered(turns: seq<Turn>): multiset<nat> {
    if turns == [] then multiset{} else Offered(turns[..|turns| - 1]) + multiset(turns[|turns| - 1].offered)
  }

  lemma OfferedNext(turns: seq<Turn>, from: nat, i: nat)
    requires from <= i < |turns|
    ensures Offered(turns[from..i + 1]) == Offered(turns[from..i]) + multiset(turns[i].offered)
  {
    assert turns[from..i + 1][..i - from] == turns[from..i];
  }

  lemma NoneOffered(turns: seq<Turn>, i: nat)
    requires i <= |turns|
    ensures Offered(turns[i..i]) == multiset{}
  {
  }

  lemma {:induction false} OfferedSplit(turns: seq<Turn>, i: nat, j: nat)
    requires i <= j <= |turns|
    ensures Offered(turns[0..j]) == Offered(turns[0..i]) + Offered(turns[i..j])
    decreases j
  {
    hide Offered;
    if i == j {
      NoneOffered(turns, i);
    } else {
      OfferedSplit(turns, i, j - 1);
      OfferedNext(turns, 0, j - 1);
      OfferedNext(turns, i, j - 1);
    }
  }

  /** At most what was offered from pass `late` on, and at least that. */
  predicate AtMost(young: multiset<nat>, turns: seq<Turn>, late: nat, i: nat)
    requires i <= |turns|
  {
    young <= if i < late then multiset{} else Offered(turns[late..i])
  }

  predicate AtLeast(young: multiset<nat>, turns: seq<Turn>, late: nat, i: nat)
    requires i <= |turns|
  {
    late <= i ==> Offered(turns[late..i]) <= young
  }

  lemma YoungNext(young: multiset<nat>, next: multiset<nat>, turns: seq<Turn>, late: nat, i: nat, start: nat)
    requires i < |turns| && late <= |turns|
    ensures AtMost(young, turns, late, i) && next <= young + New(turns[i].offered, start + i, start + late) ==>
      AtMost(next, turns, late, i + 1)
    ensures AtLeast(young, turns, late, i) && next == young + New(turns[i].offered, start + i, start + late) ==>
      AtLeast(next, turns, late, i + 1)
  {
    hide Offered;
    NoneOffered(turns, late);
    if late <= i {
      OfferedNext(turns, late, i);
    }
  }

  /** Two balances in a row. */
  lemma Chain(a: multiset<nat>, b: multiset<nat>, c: multiset<nat>, closed: seq<multiset<nat>>, m: multiset<nat>,
              n: multiset<nat>)
    requires |closed| == 3 && b + closed[1] == a + m + closed[0] && c + closed[2] == b + n + closed[1]
    ensures c + closed[2] == a + (m + n) + closed[0]
  {
    assert c + closed[2] == (b + closed[1]) + n;
  }

  /** Whoever is not among those still there is closed. */
  lemma TheRest(a: multiset<nat>, b: multiset<nat>, wasClosed: multiset<nat>, closed: multiset<nat>, m: multiset<nat>,
                n: multiset<nat>)
    requires b + closed == a + (m + n) + wasClosed && b <= n
    ensures a + m + wasClosed <= closed
  {
    forall x ensures (a + m + wasClosed)[x] <= closed[x] {
      assert (b + closed)[x] == (a + (m + n) + wasClosed)[x] && b[x] <= n[x];
    }
  }

  // ---------------------------------------------------------------------------------------
  // Runs, entry by entry
  // ---------------------------------------------------------------------------------------

  /** The buffer in one pass: after adopting, and at the end. */
  datatype Moment = Moment(adopted: seq<Client>, after: seq<Client>)

  ghost predicate PassAt(turns: seq<Turn>, start: seq<Client>, moments: seq<Moment>, passes: nat, i: nat)
    requires i < |turns| && |moments| == |turns|
  {
    && Adopting(BufferAt(start, moments, i), moments[i].adopted, turns[i].offered, passes + i)
    && Ending(moments[i].adopted, moments[i].after, turns[i].answered)
  }

  ghost predicate Trace(turns: seq<Turn>, start: seq<Client>, moments: seq<Moment>, passes: nat) {
    |moments| == |turns| && forall i :: 0 <= i < |turns| ==> PassAt(turns, start, moments, passes, i)
  }

  /** The buffer in front of pass i. */
  function BufferAt(start: seq<Client>, moments: seq<Moment>, i: nat): seq<Client>
    requires i <= |moments|
  {
    if i == 0 then start else moments[i - 1].after
  }

  lemma NoTrace(start: seq<Client>, passes: nat)
    ensures Trace([], start, [], passes)
  {
  }

  lemma TraceNext(turns: seq<Turn>, start: seq<Client>, moments: seq<Moment>, passes: nat, turn: Turn, m: Moment)
    requires Trace(turns, start, moments, passes)
    requires Adopting(BufferAt(start, moments, |moments|), m.adopted, turn.offered, passes + |moments|)
    requires Ending(m.adopted, m.after, turn.answered)
    ensures Trace(turns + [turn], start, moments + [m], passes)
  {
    hide Adopting, Ending, PassAt;
    var all, more := turns + [turn], moments + [m];
    forall i | 0 <= i < |all| ensures PassAt(all, start, more, passes, i) {
      if i < |turns| {
        assert PassAt(turns, start, moments, passes, i);
        SamePass(turns, turn, start, moments, m, passes, i);
      } else {
        LastPass(turns, turn, start, moments, m, passes);
      }
    }
  }

  lemma SamePass(turns: seq<Turn>, turn: Turn, start: seq<Client>, moments: seq<Moment>, m: Moment, passes: nat, i: nat)
    requires |moments| == |turns| && i < |turns| && PassAt(turns, start, moments, passes, i)
    ensures PassAt(turns + [turn], start, moments + [m], passes, i)
  {
    hide Adopting, Ending;
    assert (turns + [turn])[i] == turns[i] && (moments + [m])[i] == moments[i];
  }

  lemma LastPass(turns: seq<Turn>, turn: Turn, start: seq<Client>, moments: seq<Moment>, m: Moment, passes: nat)
    requires |moments| == |turns|
    requires Adopting(BufferAt(start, moments, |moments|), m.adopted, turn.offered, passes + |moments|)
    requires Ending(m.adopted, m.after, turn.answered)
    ensures PassAt(turns + [turn], start, moments + [m], passes, |turns|)
  {
    hide Adopting, Ending;
    assert (turns + [turn])[|turns|] == turn && (moments + [m])[|turns|] == m;
  }

  /** One pass over an entry that holds a connection. */
  lemma EntryInPass(before: seq<Client>, adopted: seq<Client>, after: seq<Client>, turn: Turn, passes: nat, k: nat)
    requires Adopting(before, adopted, turn.offered, passes) && Ending(adopted, after, turn.answered)
    requires k < |before| && before[k].socket != 0
    ensures k < |after|
    ensures if turn.answered(k) || before[k].recv_iter >= MAX_RECV_ITER then after[k].socket == 0
      else after[k] == before[k].(recv_iter := before[k].recv_iter + 1)
  {
    hide Sockets;
  }

  /** As long as it is not done with, a connection stays where it is until it has been through 200 passes. */
  lemma {:induction false} StaysOpen(turns: seq<Turn>, start: seq<Client>, moments: seq<Moment>, passes: nat,
                                     t: nat, n: nat, k: nat)
    requires Trace(turns, start, moments, passes) && t <= n < |turns| && k < |moments[t].adopted|
    requires moments[t].adopted[k].socket != 0 && moments[t].adopted[k].recv_iter + (n - t) < MAX_RECV_ITER
    requires forall u :: t <= u <= n ==> !turns[u].answered(k)
    ensures k < |moments[n].after|
    ensures moments[n].after[k] ==
      moments[t].adopted[k].(recv_iter := moments[t].adopted[k].recv_iter + (n - t) + 1)
    decreases n
  {
    hide Sockets, Adopting, Trace;
    PassIs(turns, start, moments, passes, n);
    if n > t {
      hide Ending;
      StaysOpen(turns, start, moments, passes, t, n - 1, k);
      EntryInPass(moments[n - 1].after, moments[n].adopted, moments[n].after, turns[n], passes + n, k);
    }
  }

  lemma PassIs(turns: seq<Turn>, start: seq<Client>, moments: seq<Moment>, passes: nat, i: nat)
    requires Trace(turns, start, moments, passes) && i < |turns|
    ensures |moments| == |turns|
    ensures i > 0 ==> Adopting(moments[i - 1].after, moments[i].adopted, turns[i].offered, passes + i)
    ensures Ending(moments[i].adopted, moments[i].after, turns[i].answered)
  {
    hide Adopting, Ending;
    assert PassAt(turns, start, moments, passes, i);
  }

  /** And in the pass after that it is closed. */
  lemma TimesOut(turns: seq<Turn>, start: seq<Client>, moments: seq<Moment>, passes: nat, t: nat, n: nat, k: nat)
    requires Trace(turns, start, moments, passes) && t < n < |turns| && k < |moments[t].adopted|
    requires moments[t].adopted[k].socket != 0 && moments[t].adopted[k].recv_iter + (n - t) == MAX_RECV_ITER
    requires forall u :: t <= u < n ==> !turns[u].answered(k)
    ensures k < |moments[n].after| && moments[n].after[k].socket == 0
  {
    hide Adopting, Ending, Trace;
    PassIs(turns, start, moments, passes, n);
    StaysOpen(turns, start, moments, passes, t, n - 1, k);
    EntryInPass(moments[n - 1].after, moments[n].adopted, moments[n].after, turns[n], passes + n, k);
  }

  class WorkerThread {
    const tid: nat
    var clients: seq<Client>
    var clients_active: int
    /** Not in the program: the connections closed so far, and the number of passes. */
    var closed: multiset<nat>
    var passes: nat

    /** At the head of the loop. */
    ghost predicate Valid()
      reads this
    {
      Aged(clients, passes) && InTime(clients)
    }

    constructor (tid: nat)
      ensures Valid() && Sockets(clients) == multiset{} && closed == multiset{} && this.tid == tid
    {
      this.tid := tid;
      clients, clients_active, closed, passes := [], 0, multiset{}, 0;
    }

    method CountActive()
      modifies this`clients_active
      ensures clients_active == |Sockets(clients)|
    {
      clients_active := 0;
      var i := 0;
      while i < |clients|
        invariant 0 <= i <= |clients| && clients_active == |Sockets(clients[..i])|
      {
        SocketsPrefix(clients, i);
        if clients[i].socket != 0 {
          clients_active := clients_active + 1;
        }
        i := i + 1;
      }
      assert clients[..i] == clients;
    }

    /** realloc: the clients stay where they are, the new entries are free. */
    method Grow(n: nat)
      modifies this`clients
      ensures |clients| == |old(clients)| + n && old(clients) <= clients
      ensures forall k :: |old(clients)| <= k < |clients| ==> clients[k].socket == 0
      ensures Sockets(clients) == Sockets(old(clients))
      ensures Aged(old(clients), passes) ==> Aged(clients, passes)
      ensures InTime(old(clients)) ==> InTime(clients)
    {
      var more := seq(n, i => Client(0, 0, 0));
      SocketsGrow(clients, more);
      clients := clients + more;
    }

    /** Moves the search cursor on to the next free entry. */
    method FindFree(from: nat) returns (c: nat)
      requires from <= |clients| && forall k :: 0 <= k < from ==> clients[k].socket != 0
      ensures from <= c <= |clients| && (c < |clients| ==> clients[c].socket == 0)
      ensures forall k :: 0 <= k < c ==> clients[k].socket != 0
    {
      c := from;
      while c < |clients| && clients[c].socket != 0
        invariant from <= c <= |clients|
        invariant forall k :: 0 <= k < c ==> clients[k].socket != 0
      {
        c := c + 1;
      }
    }

    /** Copies a connection into a free entry. */
    method Store(c: nat, socket: nat)
      requires c < |clients| && clients[c].socket == 0 && socket != 0
      requires Aged(clients, passes) && InTime(clients) && clients_active == |Sockets(clients)|
      modifies this`clients, this`clients_active
      ensures clients == old(clients)[c := Client(socket, 0, passes)]
      ensures Aged(clients, passes) && InTime(clients) && clients_active == |Sockets(clients)|
      ensures Sockets(clients) == Sockets(old(clients)) + multiset{socket}
    {
      hide Sockets;
      SocketsUpdate(clients, c, Client(socket, 0, passes));
      assert One(clients[c]) == multiset{} && One(Client(socket, 0, passes)) == multiset{socket};
      assert Sockets(clients[c := Client(socket, 0, passes)]) == Sockets(clients) + multiset{socket};
      clients := clients[c := Client(socket, 0, passes)];
      clients_active := clients_active + 1;
    }

    /** Takes the connections over: none is put where another one is. */
    method Adopt(offered: seq<nat>)
      requires Aged(clients, passes) && InTime(clients) && clients_active == |Sockets(clients)|
      requires forall k :: 0 <= k < |offered| ==> offered[k] != 0
      modifies this`clients, this`clients_active
      ensures Aged(clients, passes) && InTime(clients) && clients_active == |Sockets(clients)|
      ensures Sockets(clients) == Sockets(old(clients)) + multiset(offered)
      ensures Untouched(old(clients), clients) && Traced(old(clients), clients, multiset(offered), passes)
    {
      hide Sockets, One, Aged, InTime;
      var c, i := 0, 0;
      while i < |offered|
        invariant 0 <= i <= |offered| && 0 <= c <= |clients|
        invariant forall k :: 0 <= k < c ==> clients[k].socket != 0
        invariant Aged(clients, passes) && InTime(clients) && clients_active == |Sockets(clients)|
        invariant Sockets(clients) == Sockets(old(clients)) + multiset(offered[..i])
        invariant Untouched(old(clients), clients) && Traced(old(clients), clients, multiset(offered[..i]), passes)
      {
        c := AdoptOne(c, offered[i], old(clients), multiset(offered[..i]));
        TakeOne(offered, i);
        i := i + 1;
      }
      assert offered[..i] == offered;
    }

    /** Finds an entry for one connection, behind entries that are all taken. */
    method AdoptOne(from: nat, socket: nat, ghost before: seq<Client>, ghost offered: multiset<nat>) returns (c: nat)
      requires from <= |clients| && socket != 0 && forall k :: 0 <= k < from ==> clients[k].socket != 0
      requires Aged(clients, passes) && InTime(clients) && clients_active == |Sockets(clients)|
      requires Untouched(before, clients) && Traced(before, clients, offered, passes)
      modifies this`clients, this`clients_active
      ensures from <= c < |clients| && forall k :: 0 <= k < c ==> clients[k].socket != 0
      ensures Aged(clients, passes) && InTime(clients) && clients_active == |Sockets(clients)|
      ensures Sockets(clients) == Sockets(old(clients)) + multiset{socket}
      ensures Untouched(before, clients) && Traced(before, clients, offered + multiset{socket}, passes)
    {
      hide Sockets, One, Aged, InTime;
      c := FindFree(from);
      if c == |clients| {
        Grow(1);
      }
      StoreKeeps(before, clients, c, socket, offered, passes);
      Store(c, socket);
    }

    /** One more pass for every connection in the buffer. */
    method CountIterations()
      requires Aged(clients, passes) && InTime(clients)
      modifies this`clients, this`passes
      ensures Aged(clients, passes) && passes == old(passes) + 1
      ensures Sockets(clients) == Sockets(old(clients)) && |clients| == |old(clients)|
      ensures forall k :: 0 <= k < |clients| ==>
        clients[k] == if old(clients)[k].socket != 0 then old(clients)[k].(recv_iter := old(clients)[k].recv_iter + 1)
                      else old(clients)[k]
    {
      hide Sockets;
      var i := 0;
      while i < |clients|
        invariant 0 <= i <= |clients| == |old(clients)|
        invariant Sockets(clients) == Sockets(old(clients)) && passes == old(passes)
        invariant forall k :: 0 <= k < |clients| ==>
          clients[k] == if k < i && old(clients)[k].socket != 0
                        then old(clients)[k].(recv_iter := old(clients)[k].recv_iter + 1) else old(clients)[k]
      {
        if clients[i].socket != 0 {
          SocketsSame(clients, i, clients[i].(recv_iter := clients[i].recv_iter + 1));
          clients := clients[i := clients[i].(recv_iter := clients[i].recv_iter + 1)];
        }
        i := i + 1;
      }
      passes := passes + 1;
    }

    /** close, and the entry is free again. */
    method Close(i: nat)
      requires i < |clients| && clients[i].socket != 0
      requires clients_active == |Sockets(clients)|
      modifies this`clients, this`clients_active, this`closed
      ensures clients == old(clients)[i := old(clients)[i].(socket := 0)]
      ensures Sockets(clients) + closed == Sockets(old(clients)) + old(closed)
      ensures clients_active == |Sockets(clients)|
      ensures closed == old(closed) + multiset{old(clients)[i].socket}
    {
      hide Sockets;
      var socket := clients[i].socket;
      SocketsUpdate(clients, i, clients[i].(socket := 0));
      assert One(clients[i]) == multiset{socket} && One(clients[i].(socket := 0)) == multiset{};
      assert Sockets(clients[i := clients[i].(socket := 0)]) + multiset{socket} == Sockets(clients);
      closed := closed + multiset{socket};
      clients := clients[i := clients[i].(socket := 0)];
      clients_active := clients_active - 1;
    }

    /**
      Serves the connections: `answered` says of each entry that it had something to read and
      parseSocket was done with it. Closed are those, and those who have used up their passes; all
      others stay as they are.
     */
    method Serve(answered: nat -> bool)
      requires Aged(clients, passes) && clients_active == |Sockets(clients)|
      modifies this`clients, this`clients_active, this`closed
      ensures Aged(clients, passes) && InTime(clients) && clients_active == |Sockets(clients)|
      ensures Sockets(clients) + closed == Sockets(old(clients)) + old(closed) && |clients| == |old(clients)|
      ensures forall k :: 0 <= k < |clients| && old(clients)[k].socket != 0 ==>
        if answered(k) || old(clients)[k].recv_iter > MAX_RECV_ITER then clients[k].socket == 0
        else clients[k] == old(clients)[k]
      ensures forall k :: 0 <= k < |clients| ==>
        clients[k] == old(clients)[k] || clients[k] == old(clients)[k].(socket := 0)
    {
      hide Sockets;
      var i := 0;
      while i < |clients|
        invariant 0 <= i <= |clients| == |old(clients)|
        invariant clients_active == |Sockets(clients)|
        invariant Sockets(clients) + closed == Sockets(old(clients)) + old(closed)
        invariant forall k :: 0 <= k < |clients| ==>
          clients[k] ==
            if k < i && old(clients)[k].socket != 0 && (answered(k) || old(clients)[k].recv_iter > MAX_RECV_ITER)
            then old(clients)[k].(socket := 0) else old(clients)[k]
      {
        if clients[i].socket != 0 {
          var handled := answered(i);
          if !handled && clients[i].recv_iter > MAX_RECV_ITER {
            handled := true;
          }
          if handled {
            Close(i);
          }
        }
        i := i + 1;
      }
    }

    /** Whether select has anybody to wait for: some descriptor is above 0. */
    method AnyActive() returns (fdmax: nat)
      ensures fdmax > 0 <==> exists k :: 0 <= k < |clients| && clients[k].socket != 0
    {
      fdmax := 0;
      var i := 0;
      while i < |clients|
        invariant 0 <= i <= |clients|
        invariant fdmax > 0 <==> exists k :: 0 <= k < i && clients[k].socket != 0
      {
        if clients[i].socket > fdmax {
          fdmax := clients[i].socket;
        }
        i := i + 1;
      }
    }

    /**
      One pass of the loop. No connection is lost or overwritten: what the buffer held and what
      was offered is in the buffer or closed. The record is updated with the exact count.
     */
    method Pass(queued: nat, offered: seq<nat>, answered: nat -> bool, laziest: Laziest) returns (l: Laziest)
      requires Valid()
      requires forall k :: 0 <= k < |offered| ==> offered[k] != 0
      modifies this
      ensures Valid() && passes == old(passes) + 1
      ensures Sockets(clients) + closed == Sockets(old(clients)) + multiset(offered) + old(closed)
      ensures l == Update(laziest, tid, |Sockets(old(clients)) + multiset(offered)|)
      ensures clients_active == |Sockets(clients)|
      ensures exists adopted ::
        Adopting(old(clients), adopted, offered, old(passes)) && Ending(adopted, clients, answered)
      ensures forall from: nat :: Young(clients, from) <= Young(old(clients), from) + New(offered, old(passes), from)
      ensures (forall k: nat :: !answered(k)) ==> forall from: nat :: old(passes) - from < MAX_RECV_ITER ==>
        Young(clients, from) == Young(old(clients), from) + New(offered, old(passes), from)
    {
      hide Sockets, Update, Aged, InTime, Young;
      CountActive();
      var i := queued - (|clients| - clients_active);
      if i > 0 {
        Grow(i);
      }
      Adopt(offered);
      ghost var adopted := clients;
      OnTime(old(clients), passes);
      l := Update(laziest, tid, clients_active);
      CountIterations();
      var fdmax := AnyActive();
      if fdmax > 0 {
        Serve(answered);
      } else {
        IdleInTime(clients);
      }
      AdoptedNew(old(clients), adopted, offered, old(passes));
      assert Ending(adopted, clients, answered);
      forall from: nat
        ensures Young(clients, from) <= Young(old(clients), from) + New(offered, old(passes), from)
        ensures (forall k: nat :: !answered(k)) && old(passes) - from < MAX_RECV_ITER ==>
          Young(clients, from) == Young(old(clients), from) + New(offered, old(passes), from)
      {
        AdoptedYoung(old(clients), adopted, multiset(offered), old(passes), from);
        ServedYoung(adopted, clients, from);
        if forall k: nat :: !answered(k) {
          if old(passes) - from < MAX_RECV_ITER {
            QuietYoung(adopted, clients, answered, old(passes), from);
          }
        }
      }
    }

    /**
      Any number of passes. Nothing is lost; whatever its client does or does not send, each
      connection that was there at the start, or was adopted more than 200 passes ago, is closed;
      and each one adopted since then is still there, unless something was done with.
     */
    method Run(turns: seq<Turn>)
      requires Valid() && forall i :: 0 <= i < |turns| ==> Sound(turns[i])
      modifies this
      ensures Valid() && passes == old(passes) + |turns|
      ensures Sockets(clients) + closed == Sockets(old(clients)) + Offered(turns) + old(closed)
      ensures |turns| > MAX_RECV_ITER ==>
        Sockets(old(clients)) + Offered(turns[..Late(turns)]) + old(closed) <= closed
      ensures exists moments ::
        Trace(turns, old(clients), moments, old(passes)) && clients == BufferAt(old(clients), moments, |turns|)
      ensures Calm(turns) ==> Offered(turns[Late(turns)..]) <= Sockets(clients)
    {
      hide Sockets, Young, Aged, InTime, Offered, Adopting, Ending, Trace, New, Quiet, Going;
      ghost var moments: seq<Moment> := [];
      GoingAtStart(turns, clients, closed, passes);
      var i := 0;
      while i < |turns|
        invariant 0 <= i <= |turns| && Valid() && passes == old(passes) + i
        invariant Going(turns, i, old(clients), old(closed), clients, closed, moments, old(passes))
      {
        ghost var buffer, wasClosed := clients, closed;
        var l := Pass(turns[i].queued, turns[i].offered, turns[i].answered, turns[i].laziest);
        ghost var adopted :| Adopting(buffer, adopted, turns[i].offered, old(passes) + i)
          && Ending(adopted, clients, turns[i].answered);
        GoingOn(turns, i, old(clients), old(closed), buffer, wasClosed, clients, closed, adopted, moments, old(passes));
        moments := moments + [Moment(adopted, clients)];
        i := i + 1;
      }
      Gone(turns, old(clients), old(closed), clients, closed, moments, old(passes));
      if |turns| > MAX_RECV_ITER {
        GoneInTime(turns, old(clients), old(closed), clients, closed, moments, old(passes));
      }
    }

    /** The end of the thread: every connection it holds is closed. */
    method CloseAll()
      requires clients_active == |Sockets(clients)|
      modifies this
      ensures Sockets(clients) == multiset{} && closed == old(closed) + Sockets(old(clients))
    {
      hide Sockets;
      var i := 0;
      while i < |clients|
        invariant 0 <= i <= |clients| && clients_active == |Sockets(clients)|
        invariant forall k :: 0 <= k < i ==> clients[k].socket == 0
        invariant Sockets(clients) + closed == Sockets(old(clients)) + old(closed)
      {
        if clients[i].socket != 0 {
          Close(i);
        }
        i := i + 1;
      }
      NoSockets(clients);
      assert multiset{} + closed == closed;
    }
  }

  lemma OnTime(clients: seq<Client>, passes: nat)
    requires Aged(clients, passes)
    ensures forall k :: 0 <= k < |clients| && clients[k].socket != 0 ==> clients[k].since <= passes
  {
  }

  lemma YoungAtStart(clients: seq<Client>, passes: nat, turns: seq<Turn>, late: nat)
    requires Aged(clients, passes) && late <= |turns|
    ensures late > 0 ==> AtMost(Young(clients, passes + late), turns, late, 0)
    ensures AtLeast(Young(clients, passes + late), turns, late, 0)
  {
    hide Young;
    OnTime(clients, passes);
    AllYoung(clients, passes + late);
    NoneOffered(turns, late);
  }

  lemma IsQuiet(turn: Turn)
    requires Quiet(turn)
    ensures forall k: nat :: !turn.answered(k)
  {
  }

  lemma BeforeLate(young: multiset<nat>, turns: seq<Turn>, late: nat, i: nat)
    requires i <= |turns|
    ensures i <= late ==> AtLeast(young, turns, late, i)
  {
    hide Offered;
    if i == late {
      NoneOffered(turns, late);
    }
  }

  lemma AtTheEnd(clients: seq<Client>, from: nat, turns: seq<Turn>, late: nat)
    requires late <= |turns|
    ensures AtLeast(Young(clients, from), turns, late, |turns|) ==> Offered(turns[late..|turns|]) <= Sockets(clients)
    ensures AtMost(Young(clients, from), turns, late, |turns|) ==> Young(clients, from) <= Offered(turns[late..|turns|])
  {
    hide Young, Offered, Sockets;
    YoungIsHeld(clients, from);
  }

  /** The first of the last 200 passes. */
  function Late(turns: seq<Turn>): nat {
    if |turns| > MAX_RECV_ITER then |turns| - MAX_RECV_ITER else 0
  }

  /** In these nobody is done with. */
  ghost predicate Calm(turns: seq<Turn>) {
    forall u | Late(turns) <= u < |turns| :: Quiet(turns[u])
  }

  /** What is known in front of pass i. */
  ghost predicate Going(turns: seq<Turn>, i: nat, start: seq<Client>, startClosed: multiset<nat>,
                        clients: seq<Client>, closed: multiset<nat>, moments: seq<Moment>, passes: nat)
    requires i <= |turns|
  {
    var young, late := Young(clients, passes + Late(turns)), Late(turns);
    && Sockets(clients) + closed == Sockets(start) + Offered(turns[0..i]) + startClosed
    && (late > 0 ==> AtMost(young, turns, late, i))
    && (Calm(turns) ==> AtLeast(young, turns, late, i))
    && |moments| == i && Trace(turns[..i], start, moments, passes) && clients == BufferAt(start, moments, i)
  }

  lemma GoingAtStart(turns: seq<Turn>, start: seq<Client>, closed: multiset<nat>, passes: nat)
    requires Aged(start, passes)
    ensures Going(turns, 0, start, closed, start, closed, [], passes)
  {
    hide Sockets, Young, Aged, Offered, Trace, AtMost, AtLeast, Calm;
    YoungAtStart(start, passes, turns, Late(turns));
    NoneOffered(turns, 0);
    NoTrace(start, passes);
    assert turns[..0] == [];
  }

  lemma GoingOn(turns: seq<Turn>, i: nat, start: seq<Client>, startClosed: multiset<nat>, before: seq<Client>,
                wasClosed: multiset<nat>, clients: seq<Client>, closed: multiset<nat>, adopted: seq<Client>,
                moments: seq<Moment>, passes: nat)
    requires i < |turns| && Going(turns, i, start, startClosed, before, wasClosed, moments, passes)
    requires Sockets(clients) + closed == Sockets(before) + multiset(turns[i].offered) + wasClosed
    requires Adopting(before, adopted, turns[i].offered, passes + i) && Ending(adopted, clients, turns[i].answered)
    requires forall from: nat :: Young(clients, from) <= Young(before, from) + New(turns[i].offered, passes + i, from)
    requires (forall k: nat :: !turns[i].answered(k)) ==> forall from: nat :: passes + i - from < MAX_RECV_ITER ==>
      Young(clients, from) == Young(before, from) + New(turns[i].offered, passes + i, from)
    ensures Going(turns, i + 1, start, startClosed, clients, closed, moments + [Moment(adopted, clients)], passes)
  {
    hide Sockets, Young, Offered, Adopting, Ending, Trace, AtMost, AtLeast, New, Quiet;
    TraceNext(turns[..i], start, moments, passes, turns[i], Moment(adopted, clients));
    assert turns[..i + 1] == turns[..i] + [turns[i]];
    OfferedNext(turns, 0, i);
    Chain(Sockets(start), Sockets(before), Sockets(clients), [startClosed, wasClosed, closed],
          Offered(turns[0..i]), multiset(turns[i].offered));
    var late := Late(turns);
    YoungNext(Young(before, passes + late), Young(clients, passes + late), turns, late, i, passes);
    if Calm(turns) && late <= i {
      IsQuiet(turns[i]);
    } else {
      BeforeLate(Young(clients, passes + late), turns, late, i + 1);
    }
  }

  lemma WholeRun(turns: seq<Turn>)
    ensures turns[0..|turns|] == turns[..|turns|] == turns
    ensures turns[Late(turns)..|turns|] == turns[Late(turns)..]
  {
  }

  lemma GoneInTime(turns: seq<Turn>, start: seq<Client>, startClosed: multiset<nat>, clients: seq<Client>,
                   closed: multiset<nat>, moments: seq<Moment>, passes: nat)
    requires Going(turns, |turns|, start, startClosed, clients, closed, moments, passes)
    requires Aged(clients, passes + |turns|) && InTime(clients) && |turns| > MAX_RECV_ITER
    ensures Sockets(start) + Offered(turns[..Late(turns)]) + startClosed <= closed
  {
    hide Sockets, Young, Aged, InTime, Offered, Trace, AtLeast, Calm;
    LateLeft(clients, closed, Sockets(start), startClosed, turns, Late(turns), passes + |turns|);
  }

  lemma Gone(turns: seq<Turn>, start: seq<Client>, startClosed: multiset<nat>, clients: seq<Client>,
             closed: multiset<nat>, moments: seq<Moment>, passes: nat)
    requires Going(turns, |turns|, start, startClosed, clients, closed, moments, passes)
    ensures Sockets(clients) + closed == Sockets(start) + Offered(turns) + startClosed
    ensures |moments| == |turns| && Trace(turns, start, moments, passes)
    ensures clients == BufferAt(start, moments, |turns|)
    ensures Calm(turns) ==> Offered(turns[Late(turns)..]) <= Sockets(clients)
  {
    hide Sockets, Young, Offered, Trace, AtMost, AtLeast, Calm, Late, BufferAt;
    WholeRun(turns);
    LateInside(turns);
    AtTheEnd(clients, passes + Late(turns), turns, Late(turns));
  }

  lemma LateInside(turns: seq<Turn>)
    ensures Late(turns) <= |turns|
  {
  }

  lemma IdleInTime(clients: seq<Client>)
    requires forall k :: 0 <= k < |clients| ==> clients[k].socket == 0
    ensures InTime(clients)
  {
  }

  /** Whatever it does or does not send, a connection is closed at the end of pass 201 at the latest. */
  lemma ClosedInTime(clients: seq<Client>, passes: nat)
    requires Aged(clients, passes) && InTime(clients)
    ensures forall k :: 0 <= k < |clients| && clients[k].socket != 0 ==> passes <= clients[k].since + MAX_RECV_ITER
  {
  }

  /** So what is left after a run has been offered in its last 200 passes, and the rest is closed. */
  lemma LateLeft(clients: seq<Client>, closed: multiset<nat>, was: multiset<nat>, wasClosed: multiset<nat>,
                 turns: seq<Turn>, late: nat, passes: nat)
    requires late <= |turns| && passes >= MAX_RECV_ITER && Aged(clients, passes) && InTime(clients)
    requires Young(clients, passes - MAX_RECV_ITER) <= Offered(turns[late..|turns|])
    requires Sockets(clients) + closed == was + Offered(turns[0..|turns|]) + wasClosed
    ensures was + Offered(turns[..late]) + wasClosed <= closed
  {
    hide Sockets, Young, Aged, InTime, Offered;
    ClosedInTime(clients, passes);
    AllYoung(clients, passes - MAX_RECV_ITER);
    OfferedSplit(turns, late, |turns|);
    assert turns[..late] == turns[0..late];
    TheRest(was, Sockets(clients), wasClosed, closed, Offered(turns[0..late]), Offered(turns[late..|turns|]));
  }
}
