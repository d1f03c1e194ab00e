/**
  The pruning schedule of the accept loop (traccoon.c) over the peers table (db.c): how long
  a peer stays listed after its last announce.

  Announces and prunes happen one at a time. Any reading of the clock and any statement may
  fail; which ones do, and what the clock shows, comes with the events of a run.
 */
module Pruning {
  import opened PeerTable

  /**
    What happens during a run: a worker stores an announce, or the accept loop comes round, looks
    at the clock at `look`, and, if it prunes, the prune reads the clock at `pruneTime`.
   */
  datatype Event =
    | Announces(torrent: int, ar: Announce, h: Attempt)
    | ComesRound(lookWorks: bool, pruneClockWorks: bool, deleteWorks: bool, look: int, pruneTime: int)

  function From(e: Event): int {
    if e.Announces? then e.h.addTime else e.look
  }

  function Until(e: Event): int {
    if e.Announces? then e.h.time else e.pruneTime
  }

  /** The clock only moves forward. */
  predicate Ordered(events: seq<Event>, clock: int) {
    && (forall i :: 0 <= i < |events| ==> clock <= From(events[i]) <= Until(events[i]))
    && (forall i, j :: 0 <= i < j < |events| ==> Until(events[i]) <= From(events[j]))
  }

  /** Everything an announce can come to works. */
  predicate Smooth(h: Attempt) {
    h.query && h.addClock && h.insert && h.again && h.clock && h.update && h.count
  }

  predicate Works(e: Event) {
    e.ComesRound? ==> e.lookWorks && e.pruneClockWorks && e.deleteWorks
  }

  class AcceptLoop {
    const db: Database
    const announceInterval: nat
    var timeLast: int
    var timeNow: int
    var killserver: bool

    /** When each peer last announced with success. */
    ghost var announced: map<Key, int>

    ghost predicate Valid()
      reads this, db
    {
      && db.Valid()
      && timeLast <= db.clock && timeNow <= db.clock
      && Kept(db.Table(), announced, db.clock, announceInterval)
    }

    constructor (db: Database, announceInterval: nat)
      requires db.Valid()
      ensures Valid() && this.db == db && this.announceInterval == announceInterval
      ensures timeLast == db.clock && !killserver && announced == map[]
    {
      this.db, this.announceInterval := db, announceInterval;
      timeLast, timeNow, killserver, announced := db.clock, 0, false, map[];
      if 0 > db.clock {
        timeNow := db.clock;
      }
    }

    /**
      One turn of the accept loop, behind accept(). When three intervals have passed since the
      last prune it prunes, and when that works exactly those go who were last seen more than
      three intervals before it.
     */
    method ComeRound(lookWorks: bool, pruneClockWorks: bool, deleteWorks: bool, look: int, pruneTime: int)
      requires Valid() && db.clock <= look <= pruneTime
      modifies this, db
      ensures Valid() && announced == old(announced) && old(db.clock) <= db.clock <= pruneTime
      ensures killserver == (old(killserver) || !lookWorks)
      ensures timeNow == if lookWorks then look else old(timeNow)
      ensures timeLast == if timeNow - old(timeLast) >= 3 * announceInterval then timeNow else old(timeLast)
      ensures var due := timeNow - old(timeLast) >= 3 * announceInterval;
        if due && pruneClockWorks && deleteWorks then
          forall k :: (k in db.Table() <==>
            k in old(db.Table()) && old(db.Table())[k].seen >= pruneTime - 3 * announceInterval)
        else db.Table() == old(db.Table())
      ensures forall k :: k in db.Table() ==> k in old(db.Table()) && db.Table()[k] == old(db.Table())[k]
    {
      hide Kept, db.Valid, db.Table, Recent;
      var known := db.GetTime(lookWorks, look);
      ClockMoves(db.Table(), announced, old(db.clock), db.clock, announceInterval);
      if known {
        timeNow := db.clock;
      } else {
        killserver := true;
      }
      if timeNow - timeLast >= 3 * announceInterval {
        Prune(pruneClockWorks, deleteWorks, pruneTime);
      }
    }

    method Prune(clockWorks: bool, deleteWorks: bool, time: int)
      requires Valid() && timeNow >= timeLast && db.clock <= time
      modifies this, db
      ensures Valid() && timeLast == timeNow == old(timeNow) && killserver == old(killserver)
      ensures announced == old(announced) && db.clock == time
      ensures clockWorks && deleteWorks ==> forall k ::
        (k in db.Table() <==> k in old(db.Table()) && old(db.Table())[k].seen >= time - 3 * announceInterval)
      ensures !(clockWorks && deleteWorks) ==> db.Table() == old(db.Table())
      ensures forall k :: k in db.Table() ==> k in old(db.Table()) && db.Table()[k] == old(db.Table())[k]
    {
      hide Kept, db.Valid, db.Table;
      ghost var before := db.Table();
      timeLast := timeNow;
      var error := db.PrunePeers(3 * announceInterval, clockWorks, deleteWorks, time);
      ClockMoves(before, announced, old(db.clock), db.clock, announceInterval);
      PruneKeeps(before, announced, db.clock, announceInterval);
    }

    /** A worker stores an announce. */
    method Announces(torrent: int, ar: Announce, h: Attempt) returns (error: int)
      requires Valid() && Fits(ar) && db.clock <= h.addTime <= h.time
      modifies this, db
      ensures Valid() && timeLast == old(timeLast) && timeNow == old(timeNow) && killserver == old(killserver)
      ensures old(db.clock) <= db.clock <= h.time
      ensures Smooth(h) ==> error == 0
      ensures error == 0 ==>
        db.clock == h.time && Listed(old(db.Table()), db.Table(), Key(torrent, ar.peerId), ar, h.time)
      ensures announced == if error == 0 then old(announced)[Key(torrent, ar.peerId) := h.time] else old(announced)
      ensures forall k :: k in db.Table() && k != Key(torrent, ar.peerId) ==>
        k in old(db.Table()) && db.Table()[k] == old(db.Table())[k]
      ensures var key := Key(torrent, ar.peerId); key in db.Table() ==>
        || db.Table()[key].seen >= h.addTime
        || (key in old(db.Table()) && db.Table()[key] == old(db.Table())[key])
      ensures forall k :: k in old(db.Table()) ==> k in db.Table()
    {
      hide Kept, db.Valid, db.Table, Listed;
      ghost var before, then', key := db.Table(), db.clock, Key(torrent, ar.peerId);
      error := db.UpdatePeer(torrent, ar, h);
      ClockMoves(before, announced, then', db.clock, announceInterval);
      if h.query && (key in before || (h.addClock && h.insert && h.again)) && h.clock && h.update {
        RefreshKeeps(before, announced, key, ar, h.time, db.clock, announceInterval);
      } else if db.Table() != before {
        AddKeeps(before, announced, key, ar, h.addTime, db.clock, announceInterval);
      }
      if error == 0 {
        announced := announced[key := h.time];
      }
    }

    /**
      Any sequence of announces and turns of the accept loop; no turns once killserver is set.
      Nobody whose announce has worked leaves the table within 3 intervals of it. And if every
      look at the clock and every prune works, nobody who announced since the start is listed
      any more when the loop looks at the clock more than 6 intervals later.
     */
    method Run(events: seq<Event>)
      requires Valid() && Ordered(events, db.clock)
      requires forall i :: 0 <= i < |events| && events[i].Announces? ==> Fits(events[i].ar)
      modifies this, db
      ensures Valid() && (events != [] ==> db.clock <= Until(events[|events| - 1]))
      ensures forall i | 0 <= i < |events| && events[i].Announces? && Smooth(events[i].h) ::
        db.clock - events[i].h.time <= 3 * announceInterval ==>
          var key := Key(events[i].torrent, events[i].ar.peerId);
          key in db.Table() && db.Table()[key].seen >= events[i].h.time
      ensures !old(killserver) && (forall i :: 0 <= i < |events| ==> Works(events[i])) ==>
        forall i, k | 0 <= i < |events| && events[i].ComesRound? && k in db.Table() ::
          db.Table()[k].seen >= old(timeLast) ==> events[i].look - db.Table()[k].seen <= 6 * announceInterval
    {
      hide db.Valid, db.Table, Kept, UpToDate, Remembered, Listed;
      ghost var start, fine := timeLast, !killserver && forall i :: 0 <= i < |events| ==> Works(events[i]);
      NothingYet(db.Table(), announced, start, announceInterval);
      var i := 0;
      while i < |events|
        invariant 0 <= i <= |events| && Valid()
        invariant (i < |events| ==> db.clock <= From(events[i])) && (i > 0 ==> db.clock <= Until(events[i - 1]))
        invariant start <= timeLast
        invariant Remembered(announced, events[..i])
        invariant fine ==> !killserver && UpToDate(db.Table(), start, timeLast, events[..i], announceInterval)
      {
        ghost var was, wasAnnounced, wasLast := db.Table(), announced, timeLast;
        match events[i] {
          case Announces(torrent, ar, h) =>
            var error := Announces(torrent, ar, h);
            AnnounceRemembered(wasAnnounced, announced, events[..i], events[i], error);
            AnnounceUpToDate(was, db.Table(), start, timeLast, events[..i], events[i], announceInterval);
          case ComesRound(lookWorks, pruneClockWorks, deleteWorks, look, pruneTime) =>
            if !killserver {
              ComeRound(lookWorks, pruneClockWorks, deleteWorks, look, pruneTime);
            }
            RoundRemembered(announced, events[..i], events[i]);
            if fine {
              RoundUpToDate(was, db.Table(), start, wasLast, timeLast, events[..i], events[i], announceInterval);
            }
        }
        assert events[..i + 1] == events[..i] + [events[i]];
        i := i + 1;
      }
      assert events[..i] == events;
      StillListed(db.Table(), announced, db.clock, events, announceInterval);
      LookedAt(db.Table(), start, timeLast, events, announceInterval);
    }
  }

  /** Every announce that worked is on record. */
  predicate Remembered(announced: map<Key, int>, events: seq<Event>) {
    forall i :: 0 <= i < |events| && events[i].Announces? && Smooth(events[i].h) ==>
      var key := Key(events[i].torrent, events[i].ar.peerId);
      key in announced && announced[key] >= events[i].h.time
  }

  /**
    Whoever was seen since `start` was so at most 3 intervals before the last prune, and at most
    6 before each look at the clock.
   */
  predicate UpToDate(v: Peers, start: int, timeLast: int, events: seq<Event>, interval: nat) {
    forall k :: k in v && v[k].seen >= start ==>
      && timeLast - v[k].seen <= 3 * interval
      && forall i :: 0 <= i < |events| && events[i].ComesRound? ==> events[i].look - v[k].seen <= 6 * interval
  }

  lemma NothingYet(v: Peers, announced: map<Key, int>, start: int, interval: nat)
    ensures Remembered(announced, []) && UpToDate(v, start, start, [], interval)
  {
  }

  lemma AnnounceRemembered(was: map<Key, int>, announced: map<Key, int>, events: seq<Event>, e: Event, error: int)
    requires Remembered(was, events) && e.Announces? && (Smooth(e.h) ==> error == 0)
    requires announced == if error == 0 then was[Key(e.torrent, e.ar.peerId) := e.h.time] else was
    requires forall i :: 0 <= i < |events| ==> Until(events[i]) <= From(e) <= Until(e)
    ensures Remembered(announced, events + [e])
  {
    hide Smooth;
    var all := events + [e];
    assert forall i :: 0 <= i < |events| ==> all[i] == events[i];
  }

  lemma RoundRemembered(announced: map<Key, int>, events: seq<Event>, e: Event)
    requires Remembered(announced, events) && e.ComesRound?
    ensures Remembered(announced, events + [e])
  {
    hide Smooth;
    var all := events + [e];
    assert forall i :: 0 <= i < |events| ==> all[i] == events[i];
  }

  /** Who announces now is seen later than any prune and any look so far. */
  lemma AnnounceUpToDate(was: Peers, v: Peers, start: int, timeLast: int, events: seq<Event>, e: Event, interval: nat)
    requires e.Announces? && timeLast <= e.h.addTime
    requires forall i :: 0 <= i < |events| ==> From(events[i]) <= Until(events[i]) <= From(e)
    requires var key := Key(e.torrent, e.ar.peerId); forall k :: k in v ==>
      (k == key && v[k].seen >= e.h.addTime) || (k in was && v[k] == was[k])
    ensures UpToDate(was, start, timeLast, events, interval) ==> UpToDate(v, start, timeLast, events + [e], interval)
  {
    if UpToDate(was, start, timeLast, events, interval) {
      var all := events + [e];
      forall k, i | k in v && v[k].seen >= start && 0 <= i < |all| && all[i].ComesRound?
        ensures all[i].look - v[k].seen <= 6 * interval
      {
        assert all[i] == events[i];
      }
    }
  }

  lemma RoundUpToDate(was: Peers, v: Peers, start: int, wasLast: int, timeLast: int, events: seq<Event>, e: Event,
                      interval: nat)
    requires UpToDate(was, start, wasLast, events, interval)
    requires e.ComesRound? && e.look <= e.pruneTime
    requires forall k :: k in v ==> k in was && v[k] == was[k]
    requires if e.look - wasLast >= 3 * interval
      then timeLast == e.look && forall k :: k in v ==> v[k].seen >= e.pruneTime - 3 * interval
      else timeLast == wasLast
    ensures UpToDate(v, start, timeLast, events + [e], interval)
  {
    var all := events + [e];
    forall k, i | k in v && v[k].seen >= start && 0 <= i < |all| && all[i].ComesRound?
      ensures all[i].look - v[k].seen <= 6 * interval
    {
      assert all[i] == if i < |events| then events[i] else e;
    }
  }

  lemma StillListed(v: Peers, announced: map<Key, int>, clock: int, events: seq<Event>, interval: nat)
    requires Kept(v, announced, clock, interval) && Remembered(announced, events)
    ensures forall i | 0 <= i < |events| && events[i].Announces? && Smooth(events[i].h) ::
      clock - events[i].h.time <= 3 * interval ==>
        var key := Key(events[i].torrent, events[i].ar.peerId);
        key in v && v[key].seen >= events[i].h.time
  {
    hide Smooth;
  }

  lemma LookedAt(v: Peers, start: int, timeLast: int, events: seq<Event>, interval: nat)
    ensures UpToDate(v, start, timeLast, events, interval) ==>
      forall i, k | 0 <= i < |events| && events[i].ComesRound? && k in v ::
        v[k].seen >= start ==> events[i].look - v[k].seen <= 6 * interval
  {
  }

  /** Whoever announced at most 3 intervals ago is listed. */
  ghost predicate Kept(v: Peers, announced: map<Key, int>, clock: int, interval: nat) {
    forall k :: k in announced ==>
      announced[k] <= clock && (clock - announced[k] <= 3 * interval ==> k in v && v[k].seen >= announced[k])
  }

  lemma ClockMoves(v: Peers, announced: map<Key, int>, clock: int, clock': int, interval: nat)
    requires Kept(v, announced, clock, interval) && clock <= clock'
    ensures Kept(v, announced, clock', interval)
  {
  }

  lemma PruneKeeps(v: Peers, announced: map<Key, int>, clock: int, interval: nat)
    requires Kept(v, announced, clock, interval)
    ensures Kept(Recent(v, clock - 3 * interval), announced, clock, interval)
  {
  }

  lemma RefreshKeeps(v: Peers, announced: map<Key, int>, key: Key, ar: Announce, time: int, clock: int, interval: nat)
    requires Kept(v, announced, clock, interval) && time <= clock
    requires key in announced ==> announced[key] <= time
    ensures Kept(Refreshed(v, key, ar, time), announced[key := time], clock, interval)
    ensures Kept(Refreshed(v, key, ar, time), announced, clock, interval)
  {
  }

  lemma AddKeeps(v: Peers, announced: map<Key, int>, key: Key, ar: Announce, t: int, clock: int, interval: nat)
    requires Kept(v, announced, clock, interval) && key !in v
    ensures Kept(Added(v, key, ar, t), announced, clock, interval)
  {
  }
}
