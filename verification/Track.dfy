/**
  The announce reply (track.c): a peer list as BEP 3 describes it, or the compact form
  of BEP 23.

  SQLite and inet_pton are parameters: a sequence of step results, and two functions from
  address text to address bytes. Output is the sequence of bytes sent after the headers.
 */
module Track {
  import opened CStrings
  import opened Bencode
  import opened BencodeAccess
  import opened Limits

  /** A result row of QUERY_TORRENT_PEERS. */
  datatype Row = Row(peerId: cstr, ip: cstr, port: cint, proto: cint)

  datatype Step = HasRow(row: Row) | Done | Busy | Error

  datatype Request = Request(ip: cstr, peerId: cstr, compact: bool, noPeerId: bool, numwant: cint)

  type address4 = b: bytes | |b| == 4 witness seq(4, i => '\0')
  type address6 = b: bytes | |b| == 16 witness seq(16, i => '\0')
  type Pton4 = cstr -> Option<address4>
  type Pton6 = cstr -> Option<address6>

  /** The rows an announce can have stored: the request fields have these sizes. */
  predicate Storable(row: Row) {
    |row.ip| <= 45 && |row.peerId| <= 60
  }

  function StepAt(steps: seq<Step>, i: nat): Step {
    if i < |steps| then steps[i] else Done
  }

  // ---------------------------------------------------------------------------------------
  // What the reply has to say
  // ---------------------------------------------------------------------------------------

  /** The rows the query delivers, from the i-th step on, before it ends, fails or is enough. */
  function Fetched(steps: seq<Step>, numwant: int, i: nat := 0): (rows: seq<Row>)
    ensures |rows| <= if i <= numwant then numwant - i else 0
    decreases numwant - i
  {
    if i >= numwant || !StepAt(steps, i).HasRow? then []
    else [StepAt(steps, i).row] + Fetched(steps, numwant, i + 1)
  }

  predicate IsSelf(row: Row, ar: Request) {
    ar.ip == row.ip && ar.peerId == row.peerId
  }

  /** Every peer but the client itself. */
  function Eligible(rows: seq<Row>, ar: Request): (e: seq<Row>)
    ensures |e| <= |rows|
  {
    if rows == [] then []
    else (if IsSelf(rows[0], ar) then [] else [rows[0]]) + Eligible(rows[1..], ar)
  }

  function PeerTree(row: Row, noPeerId: bool): Value {
    Dct(Pair("ip", TextTree(row.ip))
        + (Pair("port", IntTree(row.port))
           + if noPeerId then [] else Pair("peer id", TextTree(row.peerId))))
  }

  function PeerTrees(rows: seq<Row>, noPeerId: bool): (ts: seq<Value>)
    ensures |ts| == |rows|
    ensures forall k :: 0 <= k < |rows| ==> ts[k] == PeerTree(rows[k], noPeerId)
  {
    seq(|rows|, k requires 0 <= k < |rows| => PeerTree(rows[k], noPeerId))
  }

  /** htons and a copy of both bytes: the low 16 bits, most significant byte first. */
  function Port16(port: int): (b: bytes)
    ensures |b| == 2
  {
    [(port % 0x1_0000 / 0x100) as char, (port % 0x100) as char]
  }

  /** One compact record, if the row is of the wanted kind and its address converts. */
  function Compact4(row: Row, pton4: Pton4): (b: bytes)
    ensures |b| == 0 || |b| == 6
  {
    if row.proto == 4 && pton4(row.ip).Some? then pton4(row.ip).value + Port16(row.port) else []
  }

  function Compact6(row: Row, pton6: Pton6): (b: bytes)
    ensures |b| == 0 || |b| == 18
  {
    if row.proto != 4 && pton6(row.ip).Some? then pton6(row.ip).value + Port16(row.port) else []
  }

  function AllCompact4(rows: seq<Row>, pton4: Pton4): (b: bytes)
    ensures |b| <= 6 * |rows| && |b| % 6 == 0
  {
    if rows == [] then [] else
    var most := rows[..|rows| - 1];
    AllCompact4(most, pton4) + Compact4(rows[|rows| - 1], pton4)
  }

  function AllCompact6(rows: seq<Row>, pton6: Pton6): (b: bytes)
    ensures |b| <= 18 * |rows|
  {
    if rows == [] then [] else
    var most := rows[..|rows| - 1];
    AllCompact6(most, pton6) + Compact6(rows[|rows| - 1], pton6)
  }

  function Body(ar: Request, rows: seq<Row>, pton4: Pton4, pton6: Pton6): seq<Value> {
    if ar.compact then
      var six := AllCompact6(rows, pton6);
      Pair("peers", TextTree(AllCompact4(rows, pton4)))
      + if six == [] then [] else Pair("peers_ipv6", TextTree(six))
    else Pair("peers", Lst(PeerTrees(rows, ar.noPeerId)))
  }

  function ReplyTree(ar: Request, interval: cint, rows: seq<Row>, pton4: Pton4, pton6: Pton6): Value {
    Dct(Pair("interval", IntTree(interval)) + Body(ar, rows, pton4, pton6))
  }

  // ---------------------------------------------------------------------------------------
  // ... and how it reads
  // ---------------------------------------------------------------------------------------

  lemma Literals()
    ensures TextText("ip") == "2:ip" && TextText("port") == "4:port"
    ensures TextText("peer id") == "7:peer id"
    ensures TextText("interval") == "8:interval" && TextText("peers") == "5:peers"
    ensures TextText("peers_ipv6") == "10:peers_ipv6"
  {
    assert Dec(10) == Dec(1) + [DigitChar(0)];
  }

  /** The format of the non-compact replies, `%d:%s` written TextText. */
  function PeerText(row: Row, noPeerId: bool): bytes {
    if noPeerId then "d2:ip" + TextText(row.ip) + "4:porti" + DecInt(row.port) + "ee"
    else "d2:ip" + TextText(row.ip) + "4:porti" + DecInt(row.port) + "e7:peer id" + TextText(row.peerId) + "e"
  }

  lemma PeerTreeItems(row: Row, noPeerId: bool)
    ensures WellFormed(PeerTree(row, noPeerId))
    ensures EncodeAll(PeerTree(row, noPeerId).items) ==
      ("2:ip" + TextText(row.ip)) + (("4:port" + (['i'] + DecInt(row.port) + ['e']))
      + (if noPeerId then "" else "7:peer id" + TextText(row.peerId)))
  {
    hide TextTree, IntTree, Dec, DecInt, DecValue, TextText, Encode, EncodeAll, WellFormed;
    TextTreeEncode(row.ip);
    TextTreeEncode(row.peerId);
    IntTreeEncode(row.port);
    PairWellFormed("ip", TextTree(row.ip));
    PairWellFormed("port", IntTree(row.port));
    PairWellFormed("peer id", TextTree(row.peerId));
    Literals();
    NoPairs();
    var id := if noPeerId then [] else Pair("peer id", TextTree(row.peerId));
    PairsConcat(Pair("port", IntTree(row.port)), id);
    PairsConcat(Pair("ip", TextTree(row.ip)), Pair("port", IntTree(row.port)) + id);
  }

  lemma PeerTreeText(row: Row, noPeerId: bool)
    ensures WellFormed(PeerTree(row, noPeerId))
    ensures Encode(PeerTree(row, noPeerId)) == PeerText(row, noPeerId)
  {
    hide TextTree, IntTree, Dec, DecInt, DecValue, TextText, WellFormed, EncodeAll;
    PeerTreeItems(row, noPeerId);
    Regroup(TextText(row.ip), DecInt(row.port), TextText(row.peerId));
  }

  lemma Regroup(ip: bytes, port: bytes, id: bytes)
    ensures ['d'] + (("2:ip" + ip) + (("4:port" + (['i'] + port + ['e'])) + "")) + ['e']
      == "d2:ip" + ip + "4:porti" + port + "ee"
    ensures ['d'] + (("2:ip" + ip) + (("4:port" + (['i'] + port + ['e'])) + ("7:peer id" + id))) + ['e']
      == "d2:ip" + ip + "4:porti" + port + "e7:peer id" + id + "e"
  {
  }

  /** The peers of a non-compact reply, one after the other. */
  function PeerTexts(rows: seq<Row>, noPeerId: bool): bytes {
    if rows == [] then [] else
    PeerTexts(rows[..|rows| - 1], noPeerId) + PeerText(rows[|rows| - 1], noPeerId)
  }

  lemma {:induction false} PeerTreesText(rows: seq<Row>, noPeerId: bool)
    ensures WellFormed(Lst(PeerTrees(rows, noPeerId)))
    ensures EncodeAll(PeerTrees(rows, noPeerId)) == PeerTexts(rows, noPeerId)
  {
    hide PeerTree, Encode, PeerText, WellFormed;
    if rows != [] {
      var most, last := rows[..|rows| - 1], PeerTree(rows[|rows| - 1], noPeerId);
      PeerTreesText(most, noPeerId);
      PeerTreeText(rows[|rows| - 1], noPeerId);
      assert PeerTrees(rows, noPeerId) == PeerTrees(most, noPeerId) + [last];
      EncodeAllConcat(PeerTrees(most, noPeerId), [last]);
      EncodeAllOne(last);
    }
    forall k | 0 <= k < |rows| ensures WellFormed(PeerTrees(rows, noPeerId)[k]) {
      PeerTreeText(rows[k], noPeerId);
    }
    ListWellFormed(PeerTrees(rows, noPeerId));
  }

  lemma ListWellFormed(items: seq<Value>)
    requires forall k :: 0 <= k < |items| ==> WellFormed(items[k])
    ensures WellFormed(Lst(items))
  {
  }

  function Opening(interval: cint, compact: bool): bytes {
    "d8:intervali" + DecInt(interval) + "e5:peers" + if compact then "" else "l"
  }

  /** The whole reply as the code puts it together. */
  function ReplyText(ar: Request, interval: cint, rows: seq<Row>, pton4: Pton4, pton6: Pton6): bytes {
    Opening(interval, ar.compact)
    + if ar.compact then CompactText(AllCompact4(rows, pton4), AllCompact6(rows, pton6))
      else PeerTexts(rows, ar.noPeerId) + "ee"
  }

  /** The strings of records and the end of a compact reply. */
  function CompactText(four: bytes, six: bytes): bytes {
    TextText(four) + (if six == [] then "" else "10:peers_ipv6" + TextText(six)) + "e"
  }

  /** What is sent is one complete bencoded dictionary. */
  lemma ReplyIsTree(ar: Request, interval: cint, rows: seq<Row>, pton4: Pton4, pton6: Pton6)
    ensures WellFormed(ReplyTree(ar, interval, rows, pton4, pton6))
    ensures Encode(ReplyTree(ar, interval, rows, pton4, pton6)) == ReplyText(ar, interval, rows, pton4, pton6)
  {
    hide TextTree, IntTree, Dec, DecInt, DecValue, TextText, WellFormed, EncodeAll, PeerTexts, AllCompact4, AllCompact6;
    IntTreeEncode(interval);
    PairWellFormed("interval", IntTree(interval));
    Literals();
    BodyText(ar, rows, pton4, pton6);
    PairsConcat(Pair("interval", IntTree(interval)), Body(ar, rows, pton4, pton6));
    RegroupList(DecInt(interval), PeerTexts(rows, ar.noPeerId));
    RegroupFour(DecInt(interval), TextText(AllCompact4(rows, pton4)));
    RegroupSix(DecInt(interval), TextText(AllCompact4(rows, pton4)), TextText(AllCompact6(rows, pton6)));
  }

  lemma BodyText(ar: Request, rows: seq<Row>, pton4: Pton4, pton6: Pton6)
    ensures WellFormed(Dct(Body(ar, rows, pton4, pton6)))
    ensures EncodeAll(Body(ar, rows, pton4, pton6)) ==
      if ar.compact then
        ("5:peers" + TextText(AllCompact4(rows, pton4)))
        + (if AllCompact6(rows, pton6) == [] then ""
           else "10:peers_ipv6" + TextText(AllCompact6(rows, pton6)))
      else "5:peers" + (['l'] + PeerTexts(rows, ar.noPeerId) + ['e'])
  {
    hide TextTree, IntTree, Dec, DecInt, DecValue, TextText, WellFormed, EncodeAll, PeerTexts, AllCompact4, AllCompact6;
    Literals();
    NoPairs();
    var four, six := AllCompact4(rows, pton4), AllCompact6(rows, pton6);
    if ar.compact {
      TextTreeEncode(four);
      TextTreeEncode(six);
      PairWellFormed("peers", TextTree(four));
      PairWellFormed("peers_ipv6", TextTree(six));
      PairsConcat(Pair("peers", TextTree(four)), if six == [] then [] else Pair("peers_ipv6", TextTree(six)));
    } else {
      PeerTreesText(rows, ar.noPeerId);
      PairWellFormed("peers", Lst(PeerTrees(rows, ar.noPeerId)));
    }
  }

  lemma RegroupList(interval: bytes, list: bytes)
    ensures ['d'] + (("8:interval" + (['i'] + interval + ['e'])) + ("5:peers" + (['l'] + list + ['e']))) + ['e']
      == ("d8:intervali" + interval + "e5:peers" + "l") + (list + "ee")
  {
  }

  lemma RegroupFour(interval: bytes, four: bytes)
    ensures ['d'] + (("8:interval" + (['i'] + interval + ['e'])) + (("5:peers" + four) + "")) + ['e']
      == ("d8:intervali" + interval + "e5:peers" + "") + (four + "" + "e")
  {
  }

  lemma RegroupSix(interval: bytes, four: bytes, six: bytes)
    ensures ['d'] + (("8:interval" + (['i'] + interval + ['e'])) + (("5:peers" + four) + ("10:peers_ipv6" + six)))
        + ['e']
      == ("d8:intervali" + interval + "e5:peers" + "") + (four + ("10:peers_ipv6" + six) + "e")
  {
  }

  // ---------------------------------------------------------------------------------------
  // The writer
  // ---------------------------------------------------------------------------------------

  /** snprintf into a buffer of `size` bytes: what does not fit is cut off. */
  function Snprintf(size: nat, text: bytes): (cut: bytes)
    requires size > 0
    ensures |text| < size ==> cut == text
  {
    if |text| < size then text else text[..size - 1]
  }

  method MemCpy(dst: array<byte>, pos: nat, src: bytes)
    requires pos + |src| <= dst.Length
    modifies dst
    ensures dst[..] == old(dst[..pos]) + src + old(dst[pos + |src|..])
  {
    forall k | 0 <= k < |src| {
      dst[pos + k] := src[k];
    }
  }

  lemma DecIntShort(n: cint)
    ensures |DecInt(n)| <= 11
  {
    DecLength(if n < 0 then 0 - n else n, 10);
  }

  lemma PeerTextFits(row: Row, noPeerId: bool)
    requires Storable(row)
    ensures |PeerText(row, noPeerId)| <= 150
  {
    hide Dec, DecInt;
    DecIntShort(row.port);
    DecLength(|row.ip|, 2);
    DecLength(|row.peerId|, 2);
  }

  lemma OpeningShort(interval: cint, compact: bool)
    ensures |Opening(interval, compact)| <= 100
  {
    DecIntShort(interval);
  }

  /** The compact record of one row goes behind `pos4` or behind `pos6`. */
  method PushCompact(row: Row, pton4: Pton4, pton6: Pton6, buf4: array<byte>, pos4: nat, buf6: array<byte>, pos6: nat)
    returns (end4: nat, end6: nat)
    requires buf4 != buf6 && pos4 + 6 <= buf4.Length && pos6 + 18 <= buf6.Length
    modifies buf4, buf6
    ensures end4 <= buf4.Length && buf4[..end4] == old(buf4[..pos4]) + Compact4(row, pton4)
    ensures end6 <= buf6.Length && buf6[..end6] == old(buf6[..pos6]) + Compact6(row, pton6)
    ensures end4 <= pos4 + 6 && end6 <= pos6 + 18
  {
    end4, end6 := pos4, pos6;
    if row.proto == 4 {
      var address := pton4(row.ip);
      if address.None? {
        return;
      }
      MemCpy(buf4, end4, address.value);
      end4 := end4 + 4;
      MemCpy(buf4, end4, Port16(row.port));
      end4 := end4 + 2;
    } else {
      var address := pton6(row.ip);
      if address.None? {
        return;
      }
      MemCpy(buf6, end6, address.value);
      end6 := end6 + 16;
      MemCpy(buf6, end6, Port16(row.port));
      end6 := end6 + 2;
    }
  }

  /** A formatted head and `len` raw bytes, put together in the 1024 byte buffer. */
  method Segment(head: bytes, src: array<byte>, len: nat) returns (out: bytes)
    requires |head| <= 100 && len <= 900 && len <= src.Length
    ensures out == head + src[..len]
  {
    var buf := new byte[1024](_ => '\0');
    var text := Snprintf(1023, head);
    var c := |text|;
    MemCpy(buf, 0, text);
    MemCpy(buf, c, src[..len]);
    out := buf[..c + len];
  }

  /** The compact part of the reply: a length and the records of each address family. */
  method CompactTail(buf4: array<byte>, pos4: nat, buf6: array<byte>, pos6: nat) returns (out: bytes)
    requires pos4 <= 300 && pos6 <= 900 && pos4 <= buf4.Length && pos6 <= buf6.Length
    ensures out == TextText(buf4[..pos4]) + if pos6 > 0 then "10:peers_ipv6" + TextText(buf6[..pos6]) else ""
  {
    hide Dec;
    DecLength(pos4, 3);
    DecLength(pos6, 3);
    out := Segment(Dec(pos4) + ":", buf4, pos4);
    if pos6 > 0 {
      var six := Segment("10:peers_ipv6" + Dec(pos6) + ":", buf6, pos6);
      out := out + six;
    }
  }

  /** The peers the query delivers, the client itself excepted. */
  function Peers(ar: Request, steps: seq<Step>): seq<Row> {
    Eligible(Fetched(steps, ar.numwant), ar)
  }

  lemma {:induction false} FetchedIsDelivered(steps: seq<Step>, numwant: int, i: nat, r: Row)
    requires r in Fetched(steps, numwant, i)
    ensures exists k :: 0 <= k < |steps| && steps[k] == HasRow(r)
    decreases numwant - i
  {
    if r != steps[i].row {
      FetchedIsDelivered(steps, numwant, i + 1, r);
    }
  }

  lemma {:induction false} EligibleIsFetched(rows: seq<Row>, ar: Request, r: Row)
    requires r in Eligible(rows, ar)
    ensures r in rows && !IsSelf(r, ar)
    decreases |rows|
  {
    if r in Eligible(rows[1..], ar) {
      EligibleIsFetched(rows[1..], ar, r);
    }
  }

  lemma PeersStorable(ar: Request, steps: seq<Step>)
    requires forall k :: 0 <= k < |steps| && steps[k].HasRow? ==> Storable(steps[k].row)
    ensures forall r :: r in Peers(ar, steps) ==> Storable(r)
  {
    hide Storable;
    forall r | r in Peers(ar, steps) ensures Storable(r) {
      EligibleIsFetched(Fetched(steps, ar.numwant), ar, r);
      FetchedIsDelivered(steps, ar.numwant, 0, r);
    }
  }

  lemma {:induction false} PeerTextsShort(rows: seq<Row>, noPeerId: bool)
    requires forall r :: r in rows ==> Storable(r)
    ensures |PeerTexts(rows, noPeerId)| <= 150 * |rows|
  {
    hide PeerText, Storable;
    if rows != [] {
      PeerTextsShort(rows[..|rows| - 1], noPeerId);
      PeerTextFits(rows[|rows| - 1], noPeerId);
    }
  }

  lemma TextTextShort(data: bytes)
    requires |data| < 1000
    ensures |TextText(data)| <= |data| + 4
  {
    hide Dec;
    DecLength(|data|, 3);
  }

  /** No reply is longer than this. */
  lemma ReplyShort(ar: Request, interval: cint, rows: seq<Row>, pton4: Pton4, pton6: Pton6)
    requires |rows| <= MAXPEERS_SENT && forall r :: r in rows ==> Storable(r)
    ensures |ReplyText(ar, interval, rows, pton4, pton6)| <= 8000
  {
    hide Opening, PeerTexts, TextText, AllCompact4, AllCompact6, Storable;
    OpeningShort(interval, ar.compact);
    PeerTextsShort(rows, ar.noPeerId);
    TextTextShort(AllCompact4(rows, pton4));
    TextTextShort(AllCompact6(rows, pton6));
  }

  /** What one row adds to the three outputs. */
  method PushRow(ar: Request, row: Row, pton4: Pton4, pton6: Pton6, buf4: array<byte>, pos4: nat,
      buf6: array<byte>, pos6: nat)
    returns (text: bytes, end4: nat, end6: nat)
    requires Storable(row)
    requires buf4 != buf6 && pos4 + 6 <= buf4.Length && pos6 + 18 <= buf6.Length
    modifies buf4, buf6
    ensures end4 <= pos4 + 6 && end6 <= pos6 + 18 && end4 <= buf4.Length && end6 <= buf6.Length
    ensures ar.compact ==> text == []
    ensures ar.compact ==> buf4[..end4] == old(buf4[..pos4]) + Compact4(row, pton4)
    ensures ar.compact ==> buf6[..end6] == old(buf6[..pos6]) + Compact6(row, pton6)
    ensures !ar.compact ==> text == PeerText(row, ar.noPeerId) && end4 == pos4 && end6 == pos6
  {
    if ar.compact {
      text := [];
      end4, end6 := PushCompact(row, pton4, pton6, buf4, pos4, buf6, pos6);
    } else {
      PeerTextFits(row, ar.noPeerId);
      text, end4, end6 := Snprintf(1023, PeerText(row, ar.noPeerId)), pos4, pos6;
    }
  }

  /** The outputs after the given rows. */
  ghost predicate Pushed(ar: Request, rows: seq<Row>, pton4: Pton4, pton6: Pton6, list: bytes, four: bytes, six: bytes)
  {
    if ar.compact then list == [] && four == AllCompact4(rows, pton4) && six == AllCompact6(rows, pton6)
    else list == PeerTexts(rows, ar.noPeerId) && four == six == []
  }

  lemma PushedNone(ar: Request, pton4: Pton4, pton6: Pton6)
    ensures Pushed(ar, [], pton4, pton6, [], [], [])
  {
  }

  lemma PushedOne(ar: Request, rows: seq<Row>, row: Row, pton4: Pton4, pton6: Pton6,
                  list: bytes, four: bytes, six: bytes, text: bytes, four': bytes, six': bytes)
    requires Pushed(ar, rows, pton4, pton6, list, four, six)
    requires ar.compact ==> text == [] && four' == four + Compact4(row, pton4) && six' == six + Compact6(row, pton6)
    requires !ar.compact ==> text == PeerText(row, ar.noPeerId) && four' == six' == []
    ensures Pushed(ar, rows + [row], pton4, pton6, list + text, four', six')
  {
    hide Compact4, Compact6, PeerText;
    assert (rows + [row])[..|rows|] == rows;
  }

  /** The peers still to come at the i-th step. */
  function PeersFrom(ar: Request, steps: seq<Step>, i: nat): seq<Row> {
    Eligible(Fetched(steps, ar.numwant, i), ar)
  }

  lemma PeersFromStart(ar: Request, steps: seq<Step>)
    ensures Peers(ar, steps) == [] + PeersFrom(ar, steps, 0)
  {
  }

  lemma PeersFromStep(ar: Request, steps: seq<Step>, i: nat, rows: seq<Row>)
    ensures i >= ar.numwant || !StepAt(steps, i).HasRow? ==> PeersFrom(ar, steps, i) == []
    ensures i < ar.numwant && StepAt(steps, i).HasRow? ==>
      var row := StepAt(steps, i).row;
      rows + PeersFrom(ar, steps, i) == (if IsSelf(row, ar) then rows else rows + [row]) + PeersFrom(ar, steps, i + 1)
  {
  }

  /** The query gets to its k-th row: every step up to it delivers one, and fewer than numwant came before. */
  predicate Reached(steps: seq<Step>, numwant: int, k: int) {
    0 <= k < |steps| && k < numwant && forall i :: 0 <= i <= k ==> steps[i].HasRow?
  }

  /**
    `rows` are, in order and as often as they come, the rows reached from the i-th on that have
    another address or another peer id than the client; `at` says which.
   */
  ghost predicate Listing(ar: Request, steps: seq<Step>, i: nat, at: seq<nat>, rows: seq<Row>) {
    && |at| == |rows|
    && (forall j :: 0 <= j < |at| ==> i <= at[j] && Reached(steps, ar.numwant, at[j]) && rows[j] == steps[at[j]].row)
    && (forall j, l :: 0 <= j < l < |at| ==> at[j] < at[l])
    && (forall k: nat :: i <= k && Reached(steps, ar.numwant, k) ==>
          (k in at <==> steps[k].row.ip != ar.ip || steps[k].row.peerId != ar.peerId))
  }

  lemma {:induction false} ListingFrom(ar: Request, steps: seq<Step>, i: nat) returns (at: seq<nat>)
    requires forall k :: 0 <= k < i && k < |steps| ==> steps[k].HasRow?
    ensures Listing(ar, steps, i, at, PeersFrom(ar, steps, i))
    decreases ar.numwant - i
  {
    hide Fetched, Eligible, PeersFrom, Listing;
    PeersFromNext(ar, steps, i);
    at := [];
    if i < ar.numwant && StepAt(steps, i).HasRow? {
      var rest := ListingFrom(ar, steps, i + 1);
      if steps[i].row.ip != ar.ip || steps[i].row.peerId != ar.peerId {
        ListingWith(ar, steps, i, rest, PeersFrom(ar, steps, i + 1));
        at := [i] + rest;
      } else {
        ListingWithout(ar, steps, i, rest, PeersFrom(ar, steps, i + 1));
        at := rest;
      }
    } else {
      NoListing(ar, steps, i);
    }
  }

  lemma PeersFromNext(ar: Request, steps: seq<Step>, i: nat)
    ensures i >= ar.numwant || !StepAt(steps, i).HasRow? ==> PeersFrom(ar, steps, i) == []
    ensures i < ar.numwant && StepAt(steps, i).HasRow? ==>
      var row := StepAt(steps, i).row;
      PeersFrom(ar, steps, i) ==
        (if row.ip != ar.ip || row.peerId != ar.peerId then [row] else []) + PeersFrom(ar, steps, i + 1)
  {
  }

  lemma NoListing(ar: Request, steps: seq<Step>, i: nat)
    requires i >= ar.numwant || !StepAt(steps, i).HasRow?
    ensures Listing(ar, steps, i, [], [])
  {
  }

  lemma ListingWith(ar: Request, steps: seq<Step>, i: nat, rest: seq<nat>, rows: seq<Row>)
    requires Listing(ar, steps, i + 1, rest, rows) && Reached(steps, ar.numwant, i)
    requires steps[i].row.ip != ar.ip || steps[i].row.peerId != ar.peerId
    ensures Listing(ar, steps, i, [i] + rest, [steps[i].row] + rows)
  {
    hide Reached;
    var at := [i] + rest;
    forall k: nat ensures k in at <==> k == i || k in rest {
      assert at[0] == i && (k in rest ==> exists j :: 0 <= j < |rest| && rest[j] == k && at[j + 1] == k);
    }
  }

  lemma ListingWithout(ar: Request, steps: seq<Step>, i: nat, rest: seq<nat>, rows: seq<Row>)
    requires Listing(ar, steps, i + 1, rest, rows) && Reached(steps, ar.numwant, i)
    requires steps[i].row.ip == ar.ip && steps[i].row.peerId == ar.peerId
    ensures Listing(ar, steps, i, rest, [] + rows)
  {
    hide Reached;
    assert [] + rows == rows;
  }

  /** Every peer that the query reaches is named, the client itself excepted, and nobody else. */
  lemma PeersAre(ar: Request, steps: seq<Step>) returns (at: seq<nat>)
    ensures Listing(ar, steps, 0, at, Peers(ar, steps))
  {
    PeersFromStart(ar, steps);
    at := ListingFrom(ar, steps, 0);
  }

  lemma NamedExactly(ar: Request, steps: seq<Step>)
    ensures forall k: nat | Reached(steps, ar.numwant, k) ::
      steps[k].row in Peers(ar, steps) <==> steps[k].row.ip != ar.ip || steps[k].row.peerId != ar.peerId
  {
    hide Peers;
    var at := PeersAre(ar, steps);
    forall k: nat | Reached(steps, ar.numwant, k)
      ensures steps[k].row in Peers(ar, steps) <==> steps[k].row.ip != ar.ip || steps[k].row.peerId != ar.peerId
    {
      if steps[k].row.ip != ar.ip || steps[k].row.peerId != ar.peerId {
        var j :| 0 <= j < |at| && at[j] == k;
        assert Peers(ar, steps)[j] == steps[k].row;
      }
      if steps[k].row in Peers(ar, steps) {
        var j :| 0 <= j < |at| && Peers(ar, steps)[j] == steps[k].row;
        assert Reached(steps, ar.numwant, at[j]) && at[j] in at;
      }
    }
  }

  /**
    The loop over the result rows. Every row counts against `numwant`, the client's own row
    included.
   */
  method PushRows(ar: Request, steps: seq<Step>, pton4: Pton4, pton6: Pton6, buf4: array<byte>, buf6: array<byte>)
    returns (list: bytes, pos4: nat, pos6: nat)
    requires ar.numwant <= MAXPEERS_SENT
    requires forall k :: 0 <= k < |steps| && steps[k].HasRow? ==> Storable(steps[k].row)
    requires buf4 != buf6 && buf4.Length == buf6.Length == 1024
    modifies buf4, buf6
    ensures pos4 <= 6 * MAXPEERS_SENT && pos6 <= 18 * MAXPEERS_SENT
    ensures Pushed(ar, Peers(ar, steps), pton4, pton6, list, buf4[..pos4], buf6[..pos6])
  {
    hide PeerText, Storable, Compact4, Compact6, Pushed, PeersFrom, Fetched, Eligible;
    list, pos4, pos6 := [], 0, 0;
    var i, more := 0, true;
    ghost var rows: seq<Row> := [];
    PushedNone(ar, pton4, pton6);
    PeersFromStart(ar, steps);
    assert buf4[..0] == [] && buf6[..0] == [];
    while more && i < ar.numwant
      invariant 0 <= i && (i == 0 || i <= ar.numwant)
      invariant Peers(ar, steps) == rows + if more then PeersFrom(ar, steps, i) else []
      invariant pos4 <= 6 * i && pos6 <= 18 * i
      invariant !ar.compact ==> pos4 == pos6 == 0
      invariant Pushed(ar, rows, pton4, pton6, list, buf4[..pos4], buf6[..pos6])
      decreases ar.numwant - i
    {
      PeersFromStep(ar, steps, i, rows);
      var step := StepAt(steps, i);
      if step.HasRow? {
        if !IsSelf(step.row, ar) {
          ghost var four, six := buf4[..pos4], buf6[..pos6];
          var text;
          text, pos4, pos6 := PushRow(ar, step.row, pton4, pton6, buf4, pos4, buf6, pos6);
          PushedOne(ar, rows, step.row, pton4, pton6, list, four, six, text, buf4[..pos4], buf6[..pos6]);
          list := list + text;
          rows := rows + [step.row];
        }
      } else {
        more := false;
      }
      i := i + 1;
    }
    PeersFromStep(ar, steps, i, rows);
    assert rows == Peers(ar, steps);
  }

  /** The announce reply once the torrent has been found. */
  method WriteReply(ar: Request, interval: cint, steps: seq<Step>, pton4: Pton4, pton6: Pton6) returns (out: bytes)
    requires ar.numwant <= MAXPEERS_SENT
    requires forall k :: 0 <= k < |steps| && steps[k].HasRow? ==> Storable(steps[k].row)
    ensures out == Encode(ReplyTree(ar, interval, Peers(ar, steps), pton4, pton6))
    ensures exists at :: Listing(ar, steps, 0, at, Peers(ar, steps))
    ensures |out| <= 8000
  {
    hide Encode, ReplyTree, TextText, PeerTexts, Storable, Opening, AllCompact4, AllCompact6, Peers, DecInt, Dec,
      Listing;
    ghost var at := PeersAre(ar, steps);
    var buf4, buf6 := new byte[1024](_ => '\0'), new byte[1024](_ => '\0');
    OpeningShort(interval, ar.compact);
    var opening := Snprintf(1023, Opening(interval, ar.compact));
    var list, pos4, pos6 := PushRows(ar, steps, pton4, pton6, buf4, buf6);
    if ar.compact {
      var tail := CompactTail(buf4, pos4, buf6, pos6);
      out := opening + list + tail + "e";
      assert out == opening + (tail + "e");
    } else {
      out := opening + list + "ee";
      assert out == opening + (list + "ee");
    }
    ReplyIsTree(ar, interval, Peers(ar, steps), pton4, pton6);
    PeersStorable(ar, steps);
    FewPeers(ar, steps);
    ReplyShort(ar, interval, Peers(ar, steps), pton4, pton6);
  }

  lemma FewPeers(ar: Request, steps: seq<Step>)
    requires ar.numwant <= MAXPEERS_SENT
    ensures |Peers(ar, steps)| <= MAXPEERS_SENT
  {
  }

  // ---------------------------------------------------------------------------------------
  // The error replies
  // ---------------------------------------------------------------------------------------

  /** What getTorrentId and the preparation of the peer query came to. */
  datatype TorrentQuery = Found | NoSuchHash | QueryFailed | NotPrepared

  function FailureReason(q: TorrentQuery): bytes
    requires !q.Found?
  {
    match q
    case NoSuchHash => "Hash not recognized"
    case QueryFailed => "Database error (TID)"
    case NotPrepared => "Server error"
  }

  function FailureTree(reason: bytes): Value {
    Dct(Pair("failure reason", TextTree(reason)))
  }

  lemma FailureText(reason: bytes)
    ensures WellFormed(FailureTree(reason))
    ensures Encode(FailureTree(reason)) == "d14:failure reason" + TextText(reason) + "e"
  {
    hide TextTree, DecInt, DecValue, WellFormed, EncodeAll;
    TextTreeEncode(reason);
    PairWellFormed("failure reason", TextTree(reason));
    FailureKey();
    FailureOpens();
    RegroupOne("14:failure reason", TextText(reason));
  }

  lemma FailureOpens()
    ensures ['d'] + "14:failure reason" == "d14:failure reason"
  {
  }

  lemma RegroupOne(key: bytes, text: bytes)
    ensures ['d'] + (key + text) + ['e'] == (['d'] + key) + text + ['e']
  {
  }

  lemma FailureKey()
    ensures TextText("failure reason") == "14:failure reason"
  {
    assert Dec(14) == Dec(1) + [DigitChar(4)];
  }

  lemma TwoDigits()
    ensures Dec(12) + ":" == "12:" && Dec(19) + ":" == "19:" && Dec(20) + ":" == "20:"
  {
    assert Dec(12) == Dec(1) + [DigitChar(2)];
    assert Dec(19) == Dec(1) + [DigitChar(9)];
    assert Dec(20) == Dec(2) + [DigitChar(0)];
  }

  lemma FailureLiterals(q: TorrentQuery)
    requires !q.Found?
    ensures TextText(FailureReason(q)) == match q
      case NoSuchHash => "19:" + "Hash not recognized"
      case QueryFailed => "20:" + "Database error (TID)"
      case NotPrepared => "12:" + "Server error"
  {
    hide Dec, TextText;
    TwoDigits();
    match q
    case NoSuchHash => TextTextIs("19:", "Hash not recognized");
    case QueryFailed => TextTextIs("20:", "Database error (TID)");
    case NotPrepared => TextTextIs("12:", "Server error");
  }

  lemma TextTextIs(len: bytes, data: bytes)
    requires Dec(|data|) + ":" == len
    ensures TextText(data) == len + data
  {
  }

  /** Everything `track` sends after the HTTP headers. */
  method Announce(q: TorrentQuery, ar: Request, interval: cint, steps: seq<Step>, pton4: Pton4,
      pton6: Pton6) returns (out: bytes)
    requires ar.numwant <= MAXPEERS_SENT
    requires forall k :: 0 <= k < |steps| && steps[k].HasRow? ==> Storable(steps[k].row)
    ensures out == Encode(if q.Found? then ReplyTree(ar, interval, Peers(ar, steps), pton4, pton6)
                          else FailureTree(FailureReason(q)))
    ensures |out| <= 8000
  {
    hide Encode, ReplyTree, FailureTree, TextText, Storable, Peers, FailureReason;
    if !q.Found? {
      FailureText(FailureReason(q));
      FailureLiterals(q);
    }
    match q
    case NoSuchHash => out := "d14:failure reason" + ("19:" + "Hash not recognized") + "e";
    case QueryFailed => out := "d14:failure reason" + ("20:" + "Database error (TID)") + "e";
    case NotPrepared => out := "d14:failure reason" + ("12:" + "Server error") + "e";
    case Found => out := WriteReply(ar, interval, steps, pton4, pton6);
  }
}
