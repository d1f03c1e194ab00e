/**
  The tracker's reply writer against the reply reader of getpeers.
 */
module AnnounceReply {
  import opened CStrings
  import opened Bencode
  import opened BencodeAccess
  import opened Track
  import opened Getpeers
  import opened Limits

  /** A printed integer as the reader gets it back. */
  function Shown(n: cint): cint {
    if 0 <= n <= 9 then -1 else n
  }

  function ShownPeer(row: Row, noPeerId: bool): Printed {
    Peer(row.ip, Shown(row.port), if noPeerId then None else Some(row.peerId))
  }

  function ShownPeers(rows: seq<Row>, noPeerId: bool): (ps: seq<Printed>)
    ensures |ps| == |rows|
    ensures forall k :: 0 <= k < |rows| ==> ps[k] == ShownPeer(rows[k], noPeerId)
  {
    seq(|rows|, k requires 0 <= k < |rows| => ShownPeer(rows[k], noPeerId))
  }

  /** The IPv4 peers, in order, with the low 16 bits of their ports. */
  function ShownRecords(rows: seq<Row>, pton4: Pton4): seq<Record> {
    if rows == [] then [] else
    var most, row := rows[..|rows| - 1], rows[|rows| - 1];
    ShownRecords(most, pton4)
    + if row.proto == 4 && pton4(row.ip).Some?
      then [Record(pton4(row.ip).value, row.port % 0x1_0000)] else []
  }

  function Answer(ar: Request, interval: cint, rows: seq<Row>, pton4: Pton4): Response {
    Normal(Some(Shown(interval)), None, None,
           if ar.compact then Compact(ShownRecords(rows, pton4)) else Full(ShownPeers(rows, ar.noPeerId)))
  }

  // ---------------------------------------------------------------------------------------
  // Looking the reply over
  // ---------------------------------------------------------------------------------------

  lemma PeerLookup(row: Row, noPeerId: bool, key: bytes)
    ensures WellFormed(PeerTree(row, noPeerId))
    ensures Lookup(PeerTree(row, noPeerId), key) ==
      if key == "ip" then Some(TextTree(row.ip))
      else if key == "port" then Some(IntTree(row.port))
      else if key == "peer id" && !noPeerId then Some(TextTree(row.peerId))
      else None
  {
    hide WellFormed, Encode, EncodeAll, IntTree, TextTree, Lookup, Dec, TextText;
    TextTreeEncode(row.ip);
    TextTreeEncode(row.peerId);
    IntTreeEncode(row.port);
    PairWellFormed("ip", TextTree(row.ip));
    PairWellFormed("port", IntTree(row.port));
    PairWellFormed("peer id", TextTree(row.peerId));
    NoPairs();
    var id := if noPeerId then [] else Pair("peer id", TextTree(row.peerId));
    LookupLastPair("peer id", TextTree(row.peerId), key);
    LookupPair("port", IntTree(row.port), id, key);
    LookupPair("ip", TextTree(row.ip), Pair("port", IntTree(row.port)) + id, key);
  }

  lemma PeerReadBack(row: Row, noPeerId: bool)
    ensures WellFormed(PeerTree(row, noPeerId)) && PrintablePeer(PeerTree(row, noPeerId))
    ensures PeerOf(PeerTree(row, noPeerId)) == ShownPeer(row, noPeerId)
  {
    hide WellFormed, Encode, IntOf, IntTree, Lookup, Dec;
    PeerLookup(row, noPeerId, "ip");
    PeerLookup(row, noPeerId, "port");
    PeerLookup(row, noPeerId, "peer id");
    IntTreeReadBack(row.port, -1);
  }

  lemma Port16ReadBack(port: int)
    ensures 0x100 * (Port16(port)[0] as int) + (Port16(port)[1] as int) == port % 0x1_0000
  {
    HighAndLow(port);
  }

  lemma HighAndLow(port: int)
    ensures port % 0x1_0000 == 0x100 * (port % 0x1_0000 / 0x100) + port % 0x100
  {
    var k, q := port / 0x1_0000, port % 0x1_0000;
    SameRemainder(port, 0x100 * k + q / 0x100, q % 0x100);
  }

  lemma SameRemainder(n: int, q: int, r: nat)
    requires n == 0x100 * q + r && r < 0x100
    ensures n % 0x100 == r
  {
  }

  lemma {:induction false} RecordsReadBack(rows: seq<Row>, pton4: Pton4)
    ensures RecordsOf(AllCompact4(rows, pton4)) == ShownRecords(rows, pton4)
  {
    hide RecordsOf, Port16;
    if rows == [] {
      NoRecords();
    } else {
      var most, row := rows[..|rows| - 1], rows[|rows| - 1];
      RecordsReadBack(most, pton4);
      LastCompact4(rows, pton4);
      var head := AllCompact4(most, pton4);
      if Compact4(row, pton4) == [] {
        assert head + [] == head;
      } else {
        Port16ReadBack(row.port);
        LastRecord(head, pton4(row.ip).value, Port16(row.port));
      }
    }
  }

  lemma LastCompact4(rows: seq<Row>, pton4: Pton4)
    requires rows != []
    ensures AllCompact4(rows, pton4) ==
      AllCompact4(rows[..|rows| - 1], pton4) + Compact4(rows[|rows| - 1], pton4)
  {
  }

  lemma LastRecord(head: bytes, address: bytes, port: bytes)
    requires |head| % 6 == 0 && |address| == 4 && |port| == 2
    ensures RecordsOf(head + (address + port)) ==
      RecordsOf(head) + [Record(address, 0x100 * (port[0] as int) + (port[1] as int))]
  {
    var d := head + (address + port);
    assert d[..|d| - 6] == head;
    assert d[|d| - 6..|d| - 2] == address;
  }

  lemma ReplyLookup(ar: Request, interval: cint, rows: seq<Row>, pton4: Pton4, pton6: Pton6, key: bytes)
    ensures WellFormed(ReplyTree(ar, interval, rows, pton4, pton6))
    ensures key != "peers_ipv6" ==>
      Lookup(ReplyTree(ar, interval, rows, pton4, pton6), key) ==
        if key == "interval" then Some(IntTree(interval))
        else if key == "peers" then
          Some(if ar.compact then TextTree(AllCompact4(rows, pton4)) else Lst(PeerTrees(rows, ar.noPeerId)))
        else None
  {
    hide WellFormed, Encode, EncodeAll, IntTree, TextTree, Lookup, Dec, TextText, AllCompact4, AllCompact6;
    var four, six := AllCompact4(rows, pton4), AllCompact6(rows, pton6);
    IntTreeEncode(interval);
    PairWellFormed("interval", IntTree(interval));
    NoPairs();
    if ar.compact {
      TextTreeEncode(four);
      TextTreeEncode(six);
      PairWellFormed("peers", TextTree(four));
      PairWellFormed("peers_ipv6", TextTree(six));
      LookupLastPair("peers_ipv6", TextTree(six), key);
      LookupPair("peers", TextTree(four), if six == [] then [] else Pair("peers_ipv6", TextTree(six)), key);
    } else {
      PeerTreesText(rows, ar.noPeerId);
      PairWellFormed("peers", Lst(PeerTrees(rows, ar.noPeerId)));
      LookupLastPair("peers", Lst(PeerTrees(rows, ar.noPeerId)), key);
    }
    LookupPair("interval", IntTree(interval), Body(ar, rows, pton4, pton6), key);
  }

  lemma SixLookup(ar: Request, interval: cint, rows: seq<Row>, pton4: Pton4, pton6: Pton6)
    ensures WellFormed(ReplyTree(ar, interval, rows, pton4, pton6))
    ensures Lookup(ReplyTree(ar, interval, rows, pton4, pton6), "peers_ipv6") ==
      if ar.compact && AllCompact6(rows, pton6) != [] then Some(TextTree(AllCompact6(rows, pton6))) else None
  {
    hide WellFormed, Encode, EncodeAll, IntTree, TextTree, Lookup, Dec, TextText, AllCompact4, AllCompact6;
    var four, six := AllCompact4(rows, pton4), AllCompact6(rows, pton6);
    IntTreeEncode(interval);
    PairWellFormed("interval", IntTree(interval));
    NoPairs();
    if ar.compact {
      TextTreeEncode(four);
      TextTreeEncode(six);
      PairWellFormed("peers", TextTree(four));
      PairWellFormed("peers_ipv6", TextTree(six));
      LookupLastPair("peers_ipv6", TextTree(six), "peers_ipv6");
      LookupPair("peers", TextTree(four), if six == [] then [] else Pair("peers_ipv6", TextTree(six)), "peers_ipv6");
    } else {
      PeerTreesText(rows, ar.noPeerId);
      PairWellFormed("peers", Lst(PeerTrees(rows, ar.noPeerId)));
      LookupLastPair("peers", Lst(PeerTrees(rows, ar.noPeerId)), "peers_ipv6");
    }
    LookupPair("interval", IntTree(interval), Body(ar, rows, pton4, pton6), "peers_ipv6");
  }

  /** The peers with other than IPv4 addresses, in order, with the low 16 bits of their ports. */
  function ShownSix(rows: seq<Row>, pton6: Pton6): seq<Record> {
    if rows == [] then [] else
    var most, row := rows[..|rows| - 1], rows[|rows| - 1];
    ShownSix(most, pton6)
    + if row.proto != 4 && pton6(row.ip).Some?
      then [Record(pton6(row.ip).value, row.port % 0x1_0000)] else []
  }

  /** Records of 18 bytes: 16 of the address, then the port, its high byte first. */
  predicate SixRecords(data: bytes, records: seq<Record>) {
    && |data| == 18 * |records|
    && forall j :: 0 <= j < |records| ==>
         && data[18 * j..18 * j + 16] == records[j].address
         && 0x100 * (data[18 * j + 16] as int) + (data[18 * j + 17] as int) == records[j].port
  }

  lemma SixMore(data: bytes, records: seq<Record>, address: bytes, port: bytes, r: Record)
    requires SixRecords(data, records) && |address| == 16 && |port| == 2
    requires r == Record(address, 0x100 * (port[0] as int) + (port[1] as int))
    ensures SixRecords(data + (address + port), records + [r])
  {
    var all, more := data + (address + port), records + [r];
    forall j | 0 <= j < |more|
      ensures all[18 * j..18 * j + 16] == more[j].address
      ensures 0x100 * (all[18 * j + 16] as int) + (all[18 * j + 17] as int) == more[j].port
    {
      if j < |records| {
        assert 18 * j + 18 <= |data|;
        assert all[18 * j..18 * j + 16] == data[18 * j..18 * j + 16];
        assert all[18 * j + 16] == data[18 * j + 16] && all[18 * j + 17] == data[18 * j + 17];
      } else {
        assert 18 * j == |data|;
        assert all[18 * j..18 * j + 16] == address;
        assert all[18 * j + 16] == port[0] && all[18 * j + 17] == port[1];
      }
    }
  }

  /** The string of IPv6 records holds exactly these peers, and is there when there are any. */
  lemma {:induction false} SixRecordsOf(rows: seq<Row>, pton6: Pton6)
    ensures SixRecords(AllCompact6(rows, pton6), ShownSix(rows, pton6))
  {
    hide Port16, SixRecords;
    if rows == [] {
      NoSix();
    } else {
      var most, row := rows[..|rows| - 1], rows[|rows| - 1];
      SixRecordsOf(most, pton6);
      var data := AllCompact6(most, pton6);
      LastCompact6(rows, pton6);
      if row.proto != 4 && pton6(row.ip).Some? {
        Port16ReadBack(row.port);
        SixMore(data, ShownSix(most, pton6), pton6(row.ip).value, Port16(row.port),
                Record(pton6(row.ip).value, row.port % 0x1_0000));
      } else {
        assert data + [] == data && ShownSix(most, pton6) + [] == ShownSix(most, pton6);
      }
    }
  }

  lemma NoSix()
    ensures SixRecords([], [])
  {
  }

  lemma LastCompact6(rows: seq<Row>, pton6: Pton6)
    requires rows != []
    ensures AllCompact6(rows, pton6) ==
      AllCompact6(rows[..|rows| - 1], pton6) + Compact6(rows[|rows| - 1], pton6)
  {
  }

  /** What a compact reply says about the other peers. */
  lemma SixReadBack(ar: Request, interval: cint, rows: seq<Row>, pton4: Pton4, pton6: Pton6)
    ensures var v := ReplyTree(ar, interval, rows, pton4, pton6);
      && WellFormed(v)
      && match Lookup(v, "peers_ipv6")
         case None => !ar.compact || ShownSix(rows, pton6) == []
         case Some(t) =>
           ar.compact && t.Text? && ShownSix(rows, pton6) != [] && SixRecords(t.data, ShownSix(rows, pton6))
  {
    hide WellFormed, Encode, Lookup, Dec, ReplyTree, SixRecords, ShownSix, AllCompact6;
    SixLookup(ar, interval, rows, pton4, pton6);
    SixRecordsOf(rows, pton6);
    SixCount(AllCompact6(rows, pton6), ShownSix(rows, pton6));
  }

  lemma SixCount(data: bytes, records: seq<Record>)
    requires SixRecords(data, records)
    ensures data == [] <==> records == []
  {
  }

  /** Other trackers' replies: the numbers of complete and of incomplete peers come from the keys of these names. */
  lemma CountsReadBack(complete: cint, incomplete: cint, rest: seq<Value>)
    requires WellFormed(Dct(rest)) && Printable(Dct(rest)) && Lookup(Dct(rest), "failure reason") == None
    ensures var v := Dct(Pair("complete", IntTree(complete)) + (Pair("incomplete", IntTree(incomplete)) + rest));
      && WellFormed(v) && Printable(v) && Read(v).Normal?
      && Read(v).complete == Some(Shown(complete)) && Read(v).incomplete == Some(Shown(incomplete))
      && Read(v).interval == NumberOf(Lookup(Dct(rest), "interval"))
  {
    hide WellFormed, Encode, EncodeAll, IntTree, Lookup, Dec, PrintablePeer, PeerOf;
    IntTreeEncode(complete);
    IntTreeEncode(incomplete);
    PairWellFormed("complete", IntTree(complete));
    PairWellFormed("incomplete", IntTree(incomplete));
    CountsLookup(complete, incomplete, rest, "complete");
    CountsLookup(complete, incomplete, rest, "incomplete");
    CountsLookup(complete, incomplete, rest, "failure reason");
    CountsLookup(complete, incomplete, rest, "peers");
    CountsLookup(complete, incomplete, rest, "interval");
    IntTreeReadBack(complete, -1);
    IntTreeReadBack(incomplete, -1);
  }

  lemma CountsLookup(complete: cint, incomplete: cint, rest: seq<Value>, key: bytes)
    requires WellFormed(Dct(rest))
    requires WellFormed(Dct(Pair("complete", IntTree(complete))))
    requires WellFormed(Dct(Pair("incomplete", IntTree(incomplete))))
    ensures var v := Dct(Pair("complete", IntTree(complete)) + (Pair("incomplete", IntTree(incomplete)) + rest));
      && WellFormed(v)
      && Lookup(v, key) == if key == "complete" then Some(IntTree(complete))
                           else if key == "incomplete" then Some(IntTree(incomplete)) else Lookup(Dct(rest), key)
  {
    hide WellFormed, Encode, EncodeAll, IntTree, Lookup, Dec;
    LookupPair("incomplete", IntTree(incomplete), rest, key);
    LookupPair("complete", IntTree(complete), Pair("incomplete", IntTree(incomplete)) + rest, key);
  }

  /** The reader finds in a reply exactly the peers that were written into it, in order. */
  lemma ReplyReadBack(ar: Request, interval: cint, rows: seq<Row>, pton4: Pton4, pton6: Pton6)
    ensures var v := ReplyTree(ar, interval, rows, pton4, pton6);
      WellFormed(v) && Printable(v) && Read(v) == Answer(ar, interval, rows, pton4)
  {
    hide Encode, EncodeAll, IntTree, Lookup, Dec, AllCompact4, RecordsOf, ShownRecords, WellFormed, PrintablePeer,
      PeerOf, Body;
    ReplyLookup(ar, interval, rows, pton4, pton6, "failure reason");
    ReplyLookup(ar, interval, rows, pton4, pton6, "interval");
    ReplyLookup(ar, interval, rows, pton4, pton6, "complete");
    ReplyLookup(ar, interval, rows, pton4, pton6, "incomplete");
    ReplyLookup(ar, interval, rows, pton4, pton6, "peers");
    IntTreeReadBack(interval, -1);
    RecordsReadBack(rows, pton4);
    var trees := PeerTrees(rows, ar.noPeerId);
    forall k | 0 <= k < |rows|
      ensures WellFormed(trees[k]) && PrintablePeer(trees[k])
      ensures PeerOf(trees[k]) == ShownPeer(rows[k], ar.noPeerId)
    {
      PeerReadBack(rows[k], ar.noPeerId);
    }
    assert !ar.compact ==> PeersOf(trees) == ShownPeers(rows, ar.noPeerId);
  }

  /**
    Server to client: for every torrent query, peer table and request, the body that is sent
    is one bencoded dictionary that the scanner measures in full, and the reader prints the
    peers the server meant.
   */
  method Exchange(q: TorrentQuery, ar: Request, interval: cint, steps: seq<Step>, pton4: Pton4, pton6: Pton6)
    returns (body: bytes, r: Response)
    requires ar.numwant <= MAXPEERS_SENT
    requires forall k :: 0 <= k < |steps| && steps[k].HasRow? ==> Storable(steps[k].row)
    ensures TypeAt(body, 0) == Dict && LengthAt(body, 0) == |body|
    ensures q.Found? ==> r == Answer(ar, interval, Peers(ar, steps), pton4)
    ensures !q.Found? ==> r == TrackerError(Some(FailureReason(q)))
  {
    hide WellFormed, Encode, EncodeAll, ReplyTree, FailureTree, Read, Printable, Storable, Peers, Answer, FailureReason;
    ghost var v := if q.Found? then ReplyTree(ar, interval, Peers(ar, steps), pton4, pton6)
                   else FailureTree(FailureReason(q));
    body := Announce(q, ar, interval, steps, pton4, pton6);
    if q.Found? {
      ReplyReadBack(ar, interval, Peers(ar, steps), pton4, pton6);
      ReplyIsDict(ar, interval, Peers(ar, steps), pton4, pton6);
    } else {
      FailureReadBack(FailureReason(q));
    }
    WholeBody(v);
    r := ReadResponse(body);
  }

  lemma ReplyIsDict(ar: Request, interval: cint, rows: seq<Row>, pton4: Pton4, pton6: Pton6)
    ensures ReplyTree(ar, interval, rows, pton4, pton6).Dct?
  {
  }

  lemma FailureReadBack(reason: bytes)
    ensures var v := FailureTree(reason);
      v.Dct? && WellFormed(v) && Printable(v) && Read(v) == TrackerError(Some(reason))
  {
    hide WellFormed, Encode, EncodeAll, Lookup, Dec;
    TextTreeEncode(reason);
    PairWellFormed("failure reason", TextTree(reason));
    LookupLastPair("failure reason", TextTree(reason), "failure reason");
    LookupLastPair("failure reason", TextTree(reason), "peers");
  }

  lemma WholeBody(v: Value)
    requires WellFormed(v) && v.Dct?
    ensures TreeAt(Encode(v), 0) == Some(v)
    ensures TypeAt(Encode(v), 0) == Dict && LengthAt(Encode(v), 0) == |Encode(v)|
  {
    IsAtSlice(Encode(v), 0, Encode(v));
    TreeAtIs(Encode(v), 0, v);
    ScanComplete(Encode(v), 0, v);
  }
}
