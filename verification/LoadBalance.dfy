/**
  The record of the laziest worker (thread.c, traccoon.c): every worker, once per pass, puts
  itself into the record when it is in there already or serves fewer clients than the record
  says. The acceptor gives new connections to the worker in the record.
 */
module LoadBalance {

  datatype Laziest = Laziest(threadID: nat, activeSockets: int)

  /** Worker `tid` (numbered from 1) with `active` clients updates the record. */
  function Update(l: Laziest, tid: nat, active: nat): Laziest {
    if l.threadID == tid || l.activeSockets > active then Laziest(tid, active) else l
  }

  predicate Turns(schedule: seq<nat>, workers: nat) {
    forall k :: 0 <= k < |schedule| ==> 1 <= schedule[k] <= workers
  }

  /** The workers of `schedule` update one after the other; worker t serves counts[t - 1] clients. */
  function Updates(l: Laziest, schedule: seq<nat>, counts: seq<nat>): Laziest
    requires Turns(schedule, |counts|)
    decreases |schedule|
  {
    if schedule == [] then l
    else Updates(Update(l, schedule[0], counts[schedule[0] - 1]), schedule[1..], counts)
  }

  /** A stretch of updates in which every worker has its turn. */
  predicate Round(schedule: seq<nat>, workers: nat) {
    && Turns(schedule, workers)
    && (forall t :: 1 <= t <= workers ==> t in schedule)
  }

  /** The record names a worker, and says how many clients it has. */
  predicate Honest(l: Laziest, counts: seq<nat>) {
    1 <= l.threadID <= |counts| && l.activeSockets == counts[l.threadID - 1]
  }

  /** The record names a worker nobody has fewer clients than. */
  predicate Minimal(l: Laziest, counts: seq<nat>) {
    Honest(l, counts) && forall t :: 0 <= t < |counts| ==> counts[l.threadID - 1] <= counts[t]
  }

  lemma {:induction false} UpdatesConcat(l: Laziest, first: seq<nat>, second: seq<nat>, counts: seq<nat>)
    requires Turns(first, |counts|)
    requires Turns(second, |counts|)
    ensures Updates(l, first + second, counts) == Updates(Updates(l, first, counts), second, counts)
    decreases |first|
  {
    if first == [] {
      assert first + second == second;
    } else {
      UpdatesConcat(Update(l, first[0], counts[first[0] - 1]), first[1..], second, counts);
      assert (first + second)[1..] == first[1..] + second;
    }
  }

  /** An honest record stays honest and its count never grows; it is at most that of any worker who had a turn. */
  lemma {:induction false} HonestStays(l: Laziest, schedule: seq<nat>, counts: seq<nat>)
    requires Honest(l, counts)
    requires Turns(schedule, |counts|)
    ensures Honest(Updates(l, schedule, counts), counts)
    ensures Updates(l, schedule, counts).activeSockets <= l.activeSockets
    ensures forall k :: 0 <= k < |schedule| ==> Updates(l, schedule, counts).activeSockets <= counts[schedule[k] - 1]
    decreases |schedule|
  {
    if schedule != [] {
      var next := Update(l, schedule[0], counts[schedule[0] - 1]);
      HonestStays(next, schedule[1..], counts);
      forall k | 0 <= k < |schedule|
        ensures Updates(l, schedule, counts).activeSockets <= counts[schedule[k] - 1]
      {
        assert k > 0 ==> schedule[k] == schedule[1..][k - 1];
      }
    }
  }

  /** Once the worker in the record has had its turn, the record is honest. */
  lemma {:induction false} BecomesHonest(l: Laziest, schedule: seq<nat>, counts: seq<nat>)
    requires Turns(schedule, |counts|)
    requires 1 <= l.threadID <= |counts| && l.threadID in schedule
    ensures Honest(Updates(l, schedule, counts), counts)
    decreases |schedule|
  {
    var next := Update(l, schedule[0], counts[schedule[0] - 1]);
    if next == l && schedule[0] != l.threadID {
      BecomesHonest(next, schedule[1..], counts);
    } else {
      HonestStays(next, schedule[1..], counts);
    }
  }

  lemma MinimalStays(l: Laziest, schedule: seq<nat>, counts: seq<nat>)
    requires Minimal(l, counts)
    requires Turns(schedule, |counts|)
    ensures Minimal(Updates(l, schedule, counts), counts)
  {
    HonestStays(l, schedule, counts);
    hide Updates;
  }

  lemma {:induction false} NamesWorker(l: Laziest, schedule: seq<nat>, counts: seq<nat>)
    requires 1 <= l.threadID <= |counts|
    requires Turns(schedule, |counts|)
    ensures 1 <= Updates(l, schedule, counts).threadID <= |counts|
    decreases |schedule|
  {
    if schedule != [] {
      NamesWorker(Update(l, schedule[0], counts[schedule[0] - 1]), schedule[1..], counts);
    }
  }

  lemma HonestRoundIsEnough(l: Laziest, round: seq<nat>, counts: seq<nat>)
    requires Honest(l, counts) && Round(round, |counts|)
    ensures Minimal(Updates(l, round, counts), counts)
  {
    HonestStays(l, round, counts);
    var r := Updates(l, round, counts);
    hide Updates;
    forall t | 0 <= t < |counts| ensures r.activeSockets <= counts[t] {
      assert t + 1 in round;
      var k :| 0 <= k < |round| && round[k] == t + 1;
      assert r.activeSockets <= counts[round[k] - 1];
    }
  }

  /**
    However wrong the record is to begin with: after two rounds, whatever happens before,
    between their updates and after them, it names a worker with the fewest clients.
   */
  lemma Converges(l: Laziest, before: seq<nat>, one: seq<nat>, two: seq<nat>, after: seq<nat>, counts: seq<nat>)
    requires 1 <= l.threadID <= |counts|
    requires Turns(before, |counts|) && Turns(after, |counts|)
    requires Round(one, |counts|) && Round(two, |counts|)
    ensures Minimal(Updates(l, before + (one + (two + after)), counts), counts)
  {
    hide Updates, Minimal, Honest, Turns, Round;
    var start := Updates(l, before, counts);
    RoundTurns(one, |counts|);
    RoundTurns(two, |counts|);
    NamesWorker(l, before, counts);
    BecomesHonest(start, one, counts);
    var honest := Updates(start, one, counts);
    HonestRoundIsEnough(honest, two, counts);
    MinimalStays(Updates(honest, two, counts), after, counts);
    TurnsConcat(two, after, |counts|);
    TurnsConcat(one, two + after, |counts|);
    UpdatesConcat(l, before, one + (two + after), counts);
    UpdatesConcat(start, one, two + after, counts);
    UpdatesConcat(honest, two, after, counts);
  }

  lemma RoundTurns(round: seq<nat>, workers: nat)
    requires Round(round, workers)
    ensures Turns(round, workers) && forall t :: 1 <= t <= workers ==> t in round
  {
  }

  lemma TurnsConcat(a: seq<nat>, b: seq<nat>, workers: nat)
    requires Turns(a, workers) && Turns(b, workers)
    ensures Turns(a + b, workers)
  {
  }

  /** Worker t, numbered from 1, has as few clients as anybody. */
  predicate Least(counts: seq<nat>, t: nat) {
    1 <= t <= |counts| && forall u :: 0 <= u < |counts| ==> counts[t - 1] <= counts[u]
  }

  lemma {:induction false} SomeLeast(counts: seq<nat>) returns (t: nat)
    requires counts != []
    ensures Least(counts, t)
  {
    t := 1;
    if |counts| > 1 {
      var m := SomeLeast(counts[..|counts| - 1]);
      t := if counts[m - 1] <= counts[|counts| - 1] then m else |counts|;
      forall u | 0 <= u < |counts| ensures counts[t - 1] <= counts[u] {
        assert u < |counts| - 1 ==> counts[m - 1] <= counts[..|counts| - 1][u];
      }
    }
  }

  /** What can be told from the record before a round: somebody is below it, or its worker is among the least. */
  predicate Promising(l: Laziest, counts: seq<nat>) {
    Least(counts, l.threadID) || exists t :: 0 <= t < |counts| && counts[t] < l.activeSockets
  }

  /** A stretch with a turn of a least worker that is in the record or below it. */
  lemma {:induction false} OneTurnIsEnough(l: Laziest, schedule: seq<nat>, counts: seq<nat>, m: nat)
    requires Turns(schedule, |counts|) && Least(counts, m) && m in schedule
    requires 1 <= l.threadID <= |counts| && l.threadID in schedule
    requires m == l.threadID || counts[m - 1] < l.activeSockets
    ensures Minimal(Updates(l, schedule, counts), counts)
    decreases |schedule|
  {
    var next := Update(l, schedule[0], counts[schedule[0] - 1]);
    if schedule[0] != l.threadID && l.activeSockets <= counts[schedule[0] - 1] {
      OneTurnIsEnough(l, schedule[1..], counts, m);
    } else {
      HonestStays(next, schedule[1..], counts);
      var r := Updates(l, schedule, counts);
      assert r.activeSockets <= counts[m - 1] by {
        if schedule[0] != m {
          var k :| 0 <= k < |schedule[1..]| && schedule[1..][k] == m;
        }
      }
    }
  }

  /** The round in which everybody else comes before the worker in the record. */
  function OthersFirst(workers: nat, last: nat): (schedule: seq<nat>)
    requires 1 <= last <= workers
    ensures Round(schedule, workers)
  {
    OthersHaveTurns(workers, last);
    Others(workers, last) + [last]
  }

  function Others(workers: nat, last: nat): (schedule: seq<nat>)
    ensures Turns(schedule, workers) && last !in schedule
  {
    if workers == 0 then []
    else Others(workers - 1, last) + if workers == last then [] else [workers]
  }

  lemma {:induction false} OthersHaveTurns(workers: nat, last: nat)
    ensures forall t :: 1 <= t <= workers && t != last ==> t in Others(workers, last)
  {
    if workers > 0 {
      OthersHaveTurns(workers - 1, last);
    }
  }

  lemma {:induction false} NobodyTakesOver(l: Laziest, schedule: seq<nat>, counts: seq<nat>)
    requires Turns(schedule, |counts|) && l.threadID !in schedule
    requires forall t :: 0 <= t < |counts| ==> l.activeSockets <= counts[t]
    ensures Updates(l, schedule, counts) == l
    decreases |schedule|
  {
    if schedule != [] {
      NobodyTakesOver(l, schedule[1..], counts);
    }
  }

  lemma OthersFirstFails(l: Laziest, counts: seq<nat>)
    requires 1 <= l.threadID <= |counts| && !Promising(l, counts)
    ensures !Minimal(Updates(l, OthersFirst(|counts|, l.threadID), counts), counts)
  {
    hide Updates, Turns, Others;
    var others := Others(|counts|, l.threadID);
    NobodyTakesOver(l, others, counts);
    OneTurn(l, l.threadID, counts);
    UpdatesConcat(l, others, [l.threadID], counts);
  }

  lemma OneTurn(l: Laziest, t: nat, counts: seq<nat>)
    requires 1 <= t <= |counts|
    ensures Turns([t], |counts|) && Updates(l, [t], counts) == Update(l, t, counts[t - 1])
  {
    assert [t][1..] == [];
  }

  /** When one round makes the record minimal, whatever its order. */
  lemma OneRoundIsEnough(l: Laziest, counts: seq<nat>)
    requires 1 <= l.threadID <= |counts|
    ensures Promising(l, counts) <==>
      forall round: seq<nat> :: Round(round, |counts|) ==> Minimal(Updates(l, round, counts), counts)
  {
    hide Updates, Minimal;
    if Promising(l, counts) {
      var m := SomeLeast(counts);
      if Least(counts, l.threadID) {
        m := l.threadID;
      }
      forall round: seq<nat> | Round(round, |counts|) ensures Minimal(Updates(l, round, counts), counts) {
        OneTurnIsEnough(l, round, counts, m);
      }
    } else {
      OthersFirstFails(l, counts);
    }
  }

  /** The record the program starts with, and two workers: one round is not enough. */
  lemma OneRoundIsNotEnough()
    ensures Round([2, 1], 2) && !Minimal(Updates(Laziest(1, 0), [2, 1], [5, 3]), [5, 3])
  {
    var l, counts := Laziest(1, 0), [5, 3];
    assert [2, 1][1..] == [1] && [1][1..] == [];
    assert Updates(l, [2, 1], counts) == Updates(l, [1], counts) == Updates(Laziest(1, 5), [], counts);
    assert counts[1] == 3;
  }
}
