/**
  The peers table (db.c, statements.h). Every prepared statement is one atomic step on the
  rows that takes effect or fails; the clock only moves forward. The schema does not stop two
  rows from having the same torrent and peer id: it is the order of the statements that does.
 */
module PeerTable {
  import opened CStrings
  import opened Comm
  import opened Limits
  import Track
  import opened Bencode

  const DB_FAILED := -1
  const E_GENERIC := -3

  /** A row of `peers`; `status` is NULL until the first update. */
  datatype Row = Row(id: nat, torrent: int, peerId: cstr, ip: cstr, port: cint, proto: cint,
                     left: cint, status: Option<Event>, expires: int)

  /** The fields of ANNOUNCE_REQUEST that reach the table. */
  datatype Announce = Announce(peerId: cstr, ip: cstr, port: cint, proto: cint, left: cint, event: Event)

  datatype Key = Key(torrent: int, peerId: cstr)

  datatype Entry = Entry(ip: cstr, port: cint, proto: cint, left: cint, status: Option<Event>, seen: int)

  type Peers = map<Key, Entry>

  function KeyOf(row: Row): Key {
    Key(row.torrent, row.peerId)
  }

  function EntryOf(row: Row): Entry {
    Entry(row.ip, row.port, row.proto, row.left, row.status, row.expires)
  }

  /** The buffers of ANNOUNCE_REQUEST bound the text an announce can store. */
  predicate Fits(ar: Announce) {
    Track.Storable(Track.Row(ar.peerId, ar.ip, ar.port, ar.proto))
  }

  // ---------------------------------------------------------------------------------------
  // The statements
  // ---------------------------------------------------------------------------------------

  /** QUERY_PEER_BY_ID: the id of the first matching row. */
  function Select(rows: seq<Row>, key: Key): (id: Option<nat>)
    ensures id.Some? ==> exists i :: 0 <= i < |rows| && KeyOf(rows[i]) == key && rows[i].id == id.value
    ensures id.None? ==> forall i :: 0 <= i < |rows| ==> KeyOf(rows[i]) != key
  {
    if rows == [] then None
    else if KeyOf(rows[0]) == key then Some(rows[0].id)
    else Select(rows[1..], key)
  }

  /** ADD_TORRENT_PEER: `left` has its default, `status` none. */
  function Insert(rows: seq<Row>, id: nat, torrent: int, ar: Announce, time: int): seq<Row> {
    rows + [Row(id, torrent, ar.peerId, ar.ip, ar.port, ar.proto, 0, None, time)]
  }

  /** UPDATE_PEER_DATA */
  function Update(rows: seq<Row>, id: nat, ar: Announce, time: int): (r: seq<Row>)
    ensures |r| == |rows|
    ensures forall i :: 0 <= i < |rows| ==>
      r[i] == if rows[i].id == id then rows[i].(left := ar.left, status := Some(ar.event), expires := time) else rows[i]
  {
    seq(|rows|, i requires 0 <= i < |rows| =>
      if rows[i].id == id then rows[i].(left := ar.left, status := Some(ar.event), expires := time) else rows[i])
  }

  /** QUERY_PRUNE_PEERS */
  function Delete(rows: seq<Row>, before: int): (r: seq<Row>) {
    if rows == [] then []
    else Delete(rows[..|rows| - 1], before) + if rows[|rows| - 1].expires < before then [] else [rows[|rows| - 1]]
  }

  // ---------------------------------------------------------------------------------------
  // The table as a map
  // ---------------------------------------------------------------------------------------

  /** At most one row for a torrent and a peer id; ids are distinct and below nextId. */
  predicate Unique(rows: seq<Row>, nextId: nat) {
    && (forall i, j :: 0 <= i < j < |rows| ==> KeyOf(rows[i]) != KeyOf(rows[j]) && rows[i].id != rows[j].id)
    && (forall i :: 0 <= i < |rows| ==> rows[i].id < nextId)
  }

  function View(rows: seq<Row>): Peers {
    if rows == [] then map[]
    else View(rows[..|rows| - 1])[KeyOf(rows[|rows| - 1]) := EntryOf(rows[|rows| - 1])]
  }

  lemma UniquePrefix(rows: seq<Row>, nextId: nat)
    requires Unique(rows, nextId) && rows != []
    ensures Unique(rows[..|rows| - 1], nextId)
    ensures KeyOf(rows[|rows| - 1]) !in View(rows[..|rows| - 1])
  {
    var most, last := rows[..|rows| - 1], rows[|rows| - 1];
    forall k | k in View(most) ensures k != KeyOf(last) {
      var i := RowOf(most, k);
      assert k == KeyOf(rows[i]);
    }
  }

  lemma {:induction false} RowOf(rows: seq<Row>, key: Key) returns (i: nat)
    requires key in View(rows)
    ensures i < |rows| && KeyOf(rows[i]) == key
  {
    hide KeyOf, EntryOf;
    i := |rows| - 1;
    if key != KeyOf(rows[i]) {
      i := RowOf(rows[..i], key);
    }
  }

  lemma {:induction false} RowInView(rows: seq<Row>, nextId: nat, i: nat)
    requires Unique(rows, nextId) && i < |rows|
    ensures KeyOf(rows[i]) in View(rows) && View(rows)[KeyOf(rows[i])] == EntryOf(rows[i])
    decreases |rows|
  {
    hide KeyOf, EntryOf;
    if i < |rows| - 1 {
      UniquePrefix(rows, nextId);
      RowInView(rows[..|rows| - 1], nextId, i);
    }
  }

  /** Rows that carry the keys and entries of a map show that map. */
  lemma ViewIs(rows: seq<Row>, nextId: nat, v: Peers)
    requires Unique(rows, nextId)
    requires forall i :: 0 <= i < |rows| ==> KeyOf(rows[i]) in v && v[KeyOf(rows[i])] == EntryOf(rows[i])
    requires forall k :: k in v ==> exists i :: 0 <= i < |rows| && KeyOf(rows[i]) == k
    ensures View(rows) == v
  {
    hide View, Unique, KeyOf, EntryOf;
    forall k | k in View(rows) ensures k in v {
      var i := RowOf(rows, k);
    }
    forall k | k in v ensures k in View(rows) && View(rows)[k] == v[k] {
      var i :| 0 <= i < |rows| && KeyOf(rows[i]) == k;
      RowInView(rows, nextId, i);
    }
  }

  lemma SelectInView(rows: seq<Row>, nextId: nat, key: Key)
    requires Unique(rows, nextId)
    ensures Select(rows, key).Some? <==> key in View(rows)
  {
    hide View, Unique, KeyOf, EntryOf;
    if Select(rows, key).Some? {
      var i :| 0 <= i < |rows| && KeyOf(rows[i]) == key;
      RowInView(rows, nextId, i);
    } else if key in View(rows) {
      var i := RowOf(rows, key);
    }
  }

  lemma InsertInView(rows: seq<Row>, nextId: nat, torrent: int, ar: Announce, time: int)
    requires Unique(rows, nextId) && Key(torrent, ar.peerId) !in View(rows)
    ensures var rows' := Insert(rows, nextId, torrent, ar, time);
      && Unique(rows', nextId + 1)
      && View(rows') == View(rows)[Key(torrent, ar.peerId) := Entry(ar.ip, ar.port, ar.proto, 0, None, time)]
  {
    var rows' := Insert(rows, nextId, torrent, ar, time);
    assert rows'[..|rows'| - 1] == rows;
    forall i | 0 <= i < |rows| ensures KeyOf(rows[i]) != Key(torrent, ar.peerId) {
      RowInView(rows, nextId, i);
    }
  }

  /** Inserting keeps the keys apart exactly when the peer is not in the table at that moment. */
  lemma InsertUnique(rows: seq<Row>, nextId: nat, torrent: int, ar: Announce, time: int)
    requires Unique(rows, nextId)
    ensures Unique(Insert(rows, nextId, torrent, ar, time), nextId + 1) <==> Key(torrent, ar.peerId) !in View(rows)
  {
    if Key(torrent, ar.peerId) in View(rows) {
      var i := RowOf(rows, Key(torrent, ar.peerId));
      var rows' := Insert(rows, nextId, torrent, ar, time);
      assert KeyOf(rows'[i]) == KeyOf(rows'[|rows|]);
    } else {
      InsertInView(rows, nextId, torrent, ar, time);
    }
  }

  /** Two workers that both look before either inserts: the peer is there twice. */
  lemma LookedTooEarly(torrent: int, ar: Announce, time: int)
    ensures Select([], Key(torrent, ar.peerId)) == None
    ensures var rows := Insert(Insert([], 1, torrent, ar, time), 2, torrent, ar, time);
      KeyOf(rows[0]) == KeyOf(rows[1]) && !Unique(rows, 3)
  {
    var rows := Insert(Insert([], 1, torrent, ar, time), 2, torrent, ar, time);
    assert KeyOf(rows[0]) == KeyOf(rows[1]);
  }

  function Changed(row: Row, id: nat, ar: Announce, time: int): (r: Row)
    ensures KeyOf(r) == KeyOf(row) && r.id == row.id
  {
    if row.id == id then row.(left := ar.left, status := Some(ar.event), expires := time) else row
  }

  lemma UpdateUnique(rows: seq<Row>, nextId: nat, id: nat, ar: Announce, time: int)
    requires Unique(rows, nextId)
    ensures Unique(Update(rows, id, ar, time), nextId)
  {
    hide KeyOf;
    var rows' := Update(rows, id, ar, time);
    forall i | 0 <= i < |rows| ensures KeyOf(rows'[i]) == KeyOf(rows[i]) && rows'[i].id == rows[i].id {
      assert rows'[i] == Changed(rows[i], id, ar, time);
    }
  }

  function Refresh(e: Entry, ar: Announce, time: int): Entry {
    e.(left := ar.left, status := Some(ar.event), seen := time)
  }

  lemma ChangedEntry(rows: seq<Row>, nextId: nat, key: Key, ar: Announce, time: int, i: nat)
    requires Unique(rows, nextId) && Select(rows, key).Some? && i < |rows|
    ensures EntryOf(Changed(rows[i], Select(rows, key).value, ar, time)) ==
      if KeyOf(rows[i]) == key then Refresh(EntryOf(rows[i]), ar, time) else EntryOf(rows[i])
  {
    hide KeyOf, Select;
    var id := Select(rows, key).value;
    var at :| 0 <= at < |rows| && KeyOf(rows[at]) == key && rows[at].id == id;
    assert at != i ==> rows[i].id != id && KeyOf(rows[i]) != key;
  }

  lemma UpdateInView(rows: seq<Row>, nextId: nat, key: Key, ar: Announce, time: int)
    requires Unique(rows, nextId) && Select(rows, key).Some? && key in View(rows)
    ensures Unique(Update(rows, Select(rows, key).value, ar, time), nextId)
    ensures View(Update(rows, Select(rows, key).value, ar, time)) ==
      View(rows)[key := Refresh(View(rows)[key], ar, time)]
  {
    var id, v := Select(rows, key).value, View(rows)[key := Refresh(View(rows)[key], ar, time)];
    var rows' := Update(rows, id, ar, time);
    assert forall i :: 0 <= i < |rows| ==> rows'[i] == Changed(rows[i], id, ar, time);
    hide View, Select, Update, Unique, KeyOf, EntryOf, Changed, Refresh;
    UpdateUnique(rows, nextId, id, ar, time);
    forall i | 0 <= i < |rows'| ensures KeyOf(rows'[i]) in v && v[KeyOf(rows'[i])] == EntryOf(rows'[i]) {
      RowInView(rows, nextId, i);
      ChangedEntry(rows, nextId, key, ar, time, i);
    }
    forall k | k in v ensures exists i :: 0 <= i < |rows'| && KeyOf(rows'[i]) == k {
      var i := RowOf(rows, k);
      assert KeyOf(rows'[i]) == k;
    }
    ViewIs(rows', nextId, v);
  }

  /** What is left of a map when the entries last seen before some time go. */
  function Recent(v: Peers, before: int): (r: Peers)
    ensures forall k :: k in r <==> k in v && v[k].seen >= before
    ensures forall k :: k in r ==> r[k] == v[k]
  {
    map k | k in v && v[k].seen >= before :: v[k]
  }

  /** What the peer query can deliver fits the buffers of the reply. */
  predicate AllStorable(rows: seq<Row>) {
    forall i :: 0 <= i < |rows| ==> Track.Storable(Shown(rows[i]))
  }

  lemma InsertStorable(rows: seq<Row>, id: nat, torrent: int, ar: Announce, time: int)
    requires AllStorable(rows) && Fits(ar)
    ensures AllStorable(Insert(rows, id, torrent, ar, time))
  {
    hide Track.Storable;
  }

  lemma UpdateStorable(rows: seq<Row>, id: nat, ar: Announce, time: int)
    requires AllStorable(rows)
    ensures AllStorable(Update(rows, id, ar, time))
  {
    hide Track.Storable;
  }

  lemma {:induction false} DeleteStorable(rows: seq<Row>, before: int)
    requires AllStorable(rows)
    ensures AllStorable(Delete(rows, before))
  {
    hide Track.Storable;
    if rows != [] {
      DeleteStorable(rows[..|rows| - 1], before);
    }
  }

  /** Every row left after deleting was there before, and in the same order. */
  lemma {:induction false} DeletedWasThere(rows: seq<Row>, before: int, j: nat) returns (i: nat)
    requires j < |Delete(rows, before)|
    ensures i < |rows| && rows[i] == Delete(rows, before)[j]
    decreases |rows|
  {
    var most, last := rows[..|rows| - 1], rows[|rows| - 1];
    var kept := Delete(most, before);
    if j < |kept| {
      i := DeletedWasThere(most, before, j);
      assert rows[i] == most[i] && Delete(rows, before)[j] == kept[j];
    } else {
      i := |rows| - 1;
    }
  }

  lemma {:induction false} DeleteKeeps(rows: seq<Row>, nextId: nat, before: int)
    requires Unique(rows, nextId)
    ensures Unique(Delete(rows, before), nextId)
    decreases |rows|
  {
    hide KeyOf, View, EntryOf;
    if rows != [] {
      var most, last := rows[..|rows| - 1], rows[|rows| - 1];
      UniquePrefix(rows, nextId);
      DeleteKeeps(most, nextId, before);
      var kept := Delete(most, before);
      forall j | 0 <= j < |kept| ensures kept[j].id != last.id && KeyOf(kept[j]) != KeyOf(last) {
        var i := DeletedWasThere(most, before, j);
        assert rows[i] == kept[j];
      }
      assert Delete(rows, before) == kept + (if last.expires < before then [] else [last]);
      hide Delete;
      UniqueAppend(kept, last, nextId);
      assert kept + [] == kept;
    }
  }

  lemma UniqueAppend(rows: seq<Row>, row: Row, nextId: nat)
    requires Unique(rows, nextId) && row.id < nextId
    requires forall j :: 0 <= j < |rows| ==> rows[j].id != row.id && KeyOf(rows[j]) != KeyOf(row)
    ensures Unique(rows + [row], nextId)
  {
    hide KeyOf;
  }

  lemma RecentLast(v: Peers, key: Key, e: Entry, before: int)
    requires key !in v
    ensures Recent(v[key := e], before) == if e.seen >= before then Recent(v, before)[key := e] else Recent(v, before)
  {
  }

  lemma {:induction false} DeleteInView(rows: seq<Row>, nextId: nat, before: int)
    requires Unique(rows, nextId)
    ensures View(Delete(rows, before)) == Recent(View(rows), before)
  {
    hide Unique, KeyOf, Recent;
    if rows == [] {
      assert Recent(map[], before) == map[];
    } else {
      var most, last := rows[..|rows| - 1], rows[|rows| - 1];
      UniquePrefix(rows, nextId);
      DeleteInView(most, nextId, before);
      RecentLast(View(most), KeyOf(last), EntryOf(last), before);
      var kept := Delete(most, before);
      assert (kept + [last])[..|kept|] == kept && kept + [] == kept;
    }
  }

  // ---------------------------------------------------------------------------------------
  // What an announce does to the map
  // ---------------------------------------------------------------------------------------

  /** The entry is brought up to date; the address stays the one first announced. */
  function Refreshed(v: Peers, key: Key, ar: Announce, time: int): Peers {
    v[key := if key in v then Refresh(v[key], ar, time)
             else Entry(ar.ip, ar.port, ar.proto, ar.left, Some(ar.event), time)]
  }

  /** An announce that fails may have got as far as adding the peer. */
  function Added(v: Peers, key: Key, ar: Announce, time: int): Peers {
    v[key := Entry(ar.ip, ar.port, ar.proto, 0, None, time)]
  }

  /** INCREASE_COMPLETION_COUNT */
  function Counted(downloaded: map<int, int>, torrent: int): map<int, int> {
    if torrent in downloaded then downloaded[torrent := downloaded[torrent] + 1] else downloaded
  }

  /** One more download of this torrent, and of no other. */
  predicate OneMore(before: map<int, int>, after: map<int, int>, torrent: int) {
    && after.Keys == before.Keys
    && (forall t :: t in before ==> after[t] == if t == torrent then before[t] + 1 else before[t])
  }

  /** The entry of the announcing peer says what was announced, under the address first seen; no other entry changes. */
  predicate Listed(before: Peers, after: Peers, key: Key, ar: Announce, time: int) {
    && after.Keys == before.Keys + {key}
    && (forall k :: k in before && k != key ==> after[k] == before[k])
    && after[key].left == ar.left && after[key].status == Some(ar.event) && after[key].seen == time
    && (key in before ==>
          && after[key].ip == before[key].ip
          && after[key].port == before[key].port && after[key].proto == before[key].proto)
    && (key !in before ==> after[key].ip == ar.ip && after[key].port == ar.port && after[key].proto == ar.proto)
  }

  lemma RefreshedLists(v: Peers, key: Key, ar: Announce, time: int)
    ensures Listed(v, Refreshed(v, key, ar, time), key, ar, time)
  {
  }

  /**
    What the clock and the statements of one updatePeer do, each in its turn: whether they work,
    and what the clock shows when the peer is added and when it is brought up to date.
   */
  datatype Attempt = Attempt(query: bool, addClock: bool, insert: bool, again: bool, clock: bool, update: bool,
                             count: bool, addTime: int, time: int)

  // ---------------------------------------------------------------------------------------
  // The rows behind a reply
  // ---------------------------------------------------------------------------------------

  /** The columns that QUERY_TORRENT_PEERS selects. */
  function Shown(row: Row): Track.Row {
    Track.Row(row.peerId, row.ip, row.port, row.proto)
  }

  predicate IsResult(rows: seq<Row>, torrent: int, r: Track.Row) {
    exists i :: 0 <= i < |rows| && rows[i].torrent == torrent && r == Shown(rows[i])
  }

  /** QUERY_TORRENT_PEERS delivers rows of the torrent, in any order and up to any failure. */
  predicate Delivers(rows: seq<Row>, torrent: int, steps: seq<Track.Step>) {
    forall k :: 0 <= k < |steps| && steps[k].HasRow? ==> IsResult(rows, torrent, steps[k].row)
  }

  /** Every peer a reply names is in the table, under this torrent, and is not the client. */
  lemma NamedPeers(rows: seq<Row>, nextId: nat, torrent: int, steps: seq<Track.Step>, ar: Track.Request, r: Track.Row)
    requires Unique(rows, nextId) && Delivers(rows, torrent, steps) && r in Track.Peers(ar, steps)
    ensures var key := Key(torrent, r.peerId);
      && key in View(rows)
      && View(rows)[key].ip == r.ip && View(rows)[key].port == r.port && View(rows)[key].proto == r.proto
      && !(r.ip == ar.ip && r.peerId == ar.peerId)
  {
    Track.EligibleIsFetched(Track.Fetched(steps, ar.numwant), ar, r);
    Track.FetchedIsDelivered(steps, ar.numwant, 0, r);
    hide Unique, View;
    var i :| 0 <= i < |rows| && rows[i].torrent == torrent && r == Shown(rows[i]);
    RowInView(rows, nextId, i);
  }

  class Database {
    var rows: seq<Row>
    var nextId: nat
    var downloaded: map<int, int>
    /** The last reading of the clock. */
    var clock: int

    ghost predicate Valid()
      reads this
    {
      && Unique(rows, nextId)
      && AllStorable(rows)
    }

    ghost function Table(): Peers
      reads this
    {
      View(rows)
    }

    constructor (time: int)
      ensures Valid() && Table() == map[] && clock == time
    {
      rows, nextId, downloaded, clock := [], 1, map[], time;
    }

    /** gettimeofday: the clock shows `time`, if it can be read. */
    method GetTime(works: bool, time: int) returns (ok: bool)
      requires clock <= time
      modifies this`clock
      ensures ok == works && clock == time && Valid() == old(Valid()) && Table() == old(Table())
    {
      clock := time;
      ok := works;
    }

    method AddPeer(ar: Announce, torrent: int, clockWorks: bool, insertWorks: bool, time: int) returns (error: int)
      requires Valid() && Fits(ar) && Key(torrent, ar.peerId) !in Table() && clock <= time
      modifies this
      ensures Valid() && downloaded == old(downloaded) && clock == time
      ensures error == if !clockWorks then E_GENERIC else if !insertWorks then DB_FAILED else 0
      ensures Table() ==
        if clockWorks && insertWorks then Added(old(Table()), Key(torrent, ar.peerId), ar, time) else old(Table())
      ensures error == 0 ==>
        Table() == old(Table())[Key(torrent, ar.peerId) := Entry(ar.ip, ar.port, ar.proto, 0, None, time)]
    {
      hide View, Unique, AllStorable, Insert;
      var known := GetTime(clockWorks, time);
      if !known {
        return E_GENERIC;
      }
      if !insertWorks {
        return DB_FAILED;
      }
      InsertInView(rows, nextId, torrent, ar, clock);
      InsertStorable(rows, nextId, torrent, ar, clock);
      rows, nextId := Insert(rows, nextId, torrent, ar, clock), nextId + 1;
      return 0;
    }

    /** The part of updatePeer behind the query, for the row found. */
    method UpdateRow(torrent: int, ar: Announce, row: nat, h: Attempt) returns (error: int)
      requires Valid() && Key(torrent, ar.peerId) in Table() && clock <= h.time
      requires Select(rows, Key(torrent, ar.peerId)) == Some(row)
      modifies this
      ensures Valid() && clock == h.time
      ensures error == if !h.clock then E_GENERIC else if !h.update then DB_FAILED
        else if ar.event.Completed? && !h.count then DB_FAILED else 0
      ensures Table() ==
        if h.clock && h.update then Refreshed(old(Table()), Key(torrent, ar.peerId), ar, h.time) else old(Table())
      ensures if error == 0 && ar.event.Completed? then OneMore(old(downloaded), downloaded, torrent)
              else downloaded == old(downloaded)
    {
      hide View, Unique, AllStorable, Update, Select, Refresh;
      var known := GetTime(h.clock, h.time);
      if !known {
        return E_GENERIC;
      }
      if !h.update {
        return DB_FAILED;
      }
      UpdateInView(rows, nextId, Key(torrent, ar.peerId), ar, clock);
      UpdateStorable(rows, row, ar, clock);
      rows := Update(rows, row, ar, clock);
      if !ar.event.Completed? {
        return 0;
      }
      if !h.count {
        return DB_FAILED;
      }
      downloaded := Counted(downloaded, torrent);
      return 0;
    }

    /**
      updatePeer, as long as nobody else writes in between. It succeeds exactly when the clock
      and the statements that it comes to work. A failure leaves one of three tables behind: the
      old one; the old one with the peer added but not updated; or, when only counting the
      completed download failed, the updated one.
     */
    method UpdatePeer(torrent: int, ar: Announce, h: Attempt) returns (error: int)
      requires Valid() && Fits(ar) && clock <= h.addTime <= h.time
      modifies this
      ensures Valid() && old(clock) <= clock <= h.time
      ensures var found := Key(torrent, ar.peerId) in old(Table());
        var there := h.query && (found || (h.addClock && h.insert && h.again));
        var updated := there && h.clock && h.update;
        && (error == 0 <==> updated && (ar.event.Completed? ==> h.count))
        && (updated ==> clock == h.time)
        && (error == E_GENERIC <==> there && !h.clock)
        && (error == 0 || error == E_GENERIC || error == DB_FAILED)
        && (if updated then Table() == Refreshed(old(Table()), Key(torrent, ar.peerId), ar, h.time)
            else if h.query && !found && h.addClock && h.insert then
              Table() == Added(old(Table()), Key(torrent, ar.peerId), ar, h.addTime)
            else Table() == old(Table()))
      ensures error == 0 ==> Listed(old(Table()), Table(), Key(torrent, ar.peerId), ar, h.time)
      ensures if error == 0 && ar.event.Completed? then OneMore(old(downloaded), downloaded, torrent)
              else downloaded == old(downloaded)
      decreases if Key(torrent, ar.peerId) in Table() then 0 else 1
    {
      hide Unique, View, Select, AllStorable, OneMore, Listed;
      ghost var key, before := Key(torrent, ar.peerId), Table();
      RefreshedLists(before, key, ar, h.time);
      if !h.query {
        return DB_FAILED;
      }
      SelectInView(rows, nextId, key);
      var row := Select(rows, Key(torrent, ar.peerId));
      if row.None? {
        error := AddPeer(ar, torrent, h.addClock, h.insert, h.addTime);
        if error != 0 {
          return DB_FAILED;
        }
        assert Table() == Added(before, key, ar, h.addTime);
        assert Refreshed(Table(), key, ar, h.time) == Refreshed(before, key, ar, h.time);
        error := UpdatePeer(torrent, ar, h.(query := h.again, addTime := h.time));
        return;
      }
      error := UpdateRow(torrent, ar, row.value, h);
    }

    method PrunePeers(expireInterval: int, clockWorks: bool, deleteWorks: bool, time: int) returns (error: int)
      requires Valid() && clock <= time
      modifies this
      ensures Valid() && clock == time && downloaded == old(downloaded)
      ensures error == if !clockWorks then E_GENERIC else if !deleteWorks then DB_FAILED else 0
      ensures if clockWorks && deleteWorks then Table() == Recent(old(Table()), time - expireInterval)
              else Table() == old(Table())
    {
      hide View, Unique, AllStorable, Delete, Recent;
      var known := GetTime(clockWorks, time);
      if !known {
        return E_GENERIC;
      }
      if !deleteWorks {
        return DB_FAILED;
      }
      DeleteInView(rows, nextId, clock - expireInterval);
      DeleteKeeps(rows, nextId, clock - expireInterval);
      DeleteStorable(rows, clock - expireInterval);
      rows := Delete(rows, clock - expireInterval);
      return 0;
    }

    /** track, for a torrent that was found: the reply shows the table before the announce takes effect. */
    method AnswerAnnounce(torrent: int, ar: Announce, want: Track.Request, interval: cint, steps: seq<Track.Step>,
                          pton4: Track.Pton4, pton6: Track.Pton6, h: Attempt)
      returns (out: bytes, error: int)
      requires Valid() && Fits(ar) && Delivers(rows, torrent, steps) && clock <= h.addTime <= h.time
      requires want.numwant <= MAXPEERS_SENT
      requires want.ip == ar.ip && want.peerId == ar.peerId
      modifies this
      ensures Valid()
      ensures out == Encode(Track.ReplyTree(want, interval, Track.Peers(want, steps), pton4, pton6))
      ensures forall r :: r in Track.Peers(want, steps) ==>
        && Key(torrent, r.peerId) in old(Table())
        && old(Table())[Key(torrent, r.peerId)].ip == r.ip && old(Table())[Key(torrent, r.peerId)].port == r.port
        && (r.ip != ar.ip || r.peerId != ar.peerId)
      ensures forall k: nat | Track.Reached(steps, want.numwant, k) ::
        steps[k].row in Track.Peers(want, steps) <==> steps[k].row.ip != ar.ip || steps[k].row.peerId != ar.peerId
      ensures error == 0 ==> Listed(old(Table()), Table(), Key(torrent, ar.peerId), ar, h.time)
    {
      hide Encode, Track.ReplyTree, View, Unique, Track.Storable, Track.Peers, Refreshed, Track.Reached, OneMore,
        Listed;
      Track.NamedExactly(want, steps);
      forall r | r in Track.Peers(want, steps)
        ensures Key(torrent, r.peerId) in Table()
        ensures Table()[Key(torrent, r.peerId)].ip == r.ip && Table()[Key(torrent, r.peerId)].port == r.port
        ensures r.ip != ar.ip || r.peerId != ar.peerId
      {
        NamedPeers(rows, nextId, torrent, steps, want, r);
      }
      out := Track.WriteReply(want, interval, steps, pton4, pton6);
      error := UpdatePeer(torrent, ar, h);
    }
  }
}
