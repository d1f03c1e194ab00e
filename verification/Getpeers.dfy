/**
  The reply reader of getpeers (getpeers/getpeers.c): it takes the tracker's answer apart
  with the bencode accessors and prints what it finds. Printing is modelled as the value
  printed; inet_ntop is left to the caller, so compact addresses are four bytes.
 */
module Getpeers {
  import opened CStrings
  import opened Bencode
  import opened BencodeAccess
  import opened Limits

  datatype Printed = Peer(ip: bytes, port: int, id: Option<bytes>) | Incomplete | Invalid

  datatype Record = Record(address: bytes, port: nat)

  datatype Section = Full(peers: seq<Printed>) | Compact(records: seq<Record>) | BadCompact | Unreadable

  datatype Response =
    | NotADict
    | TrackerError(reason: Option<bytes>)
    | Normal(interval: Option<int>, complete: Option<int>, incomplete: Option<int>, section: Section)

  // ---------------------------------------------------------------------------------------
  // What a reply says, read off its tree
  // ---------------------------------------------------------------------------------------

  /** The payloads handed to fwrite without a type check are strings. */
  predicate PrintablePeer(v: Value)
    requires WellFormed(v)
  {
    var ip, port, id := Lookup(v, "ip"), Lookup(v, "port"), Lookup(v, "peer id");
    ip.Some? && port.Some? ==> ip.value.Text? && (id.Some? ==> id.value.Text?)
  }

  predicate Printable(v: Value)
    requires WellFormed(v)
  {
    var peers := Lookup(v, "peers");
    peers.Some? && peers.value.Lst? ==>
      forall k :: 0 <= k < |peers.value.items| ==>
        WellFormed(peers.value.items[k]) && PrintablePeer(peers.value.items[k])
  }

  function PeerOf(v: Value): Printed
    requires WellFormed(v) && PrintablePeer(v)
  {
    if !v.Dct? then Invalid else
    var ip, port, id := Lookup(v, "ip"), Lookup(v, "port"), Lookup(v, "peer id");
    if ip.None? || port.None? then Incomplete
    else Peer(ip.value.data, IntOf(port.value, -1), if id.Some? then Some(id.value.data) else None)
  }

  function PeersOf(items: seq<Value>): (ps: seq<Printed>)
    requires forall k :: 0 <= k < |items| ==> WellFormed(items[k]) && PrintablePeer(items[k])
    ensures |ps| == |items|
    ensures forall k :: 0 <= k < |items| ==> ps[k] == PeerOf(items[k])
  {
    seq(|items|, k requires 0 <= k < |items| => PeerOf(items[k]))
  }

  function RecordAt(data: bytes, i: nat): Record
    requires i + 6 <= |data|
  {
    Record(data[i..i + 4], 0x100 * (data[i + 4] as int) + (data[i + 5] as int))
  }

  function RecordsOf(data: bytes): (rs: seq<Record>)
    requires |data| % 6 == 0
    ensures |rs| == |data| / 6
  {
    if data == [] then [] else RecordsOf(data[..|data| - 6]) + [RecordAt(data, |data| - 6)]
  }

  function SectionOf(peers: Option<Value>): Section
    requires peers.Some? ==> WellFormed(peers.value)
    requires peers.Some? && peers.value.Lst? ==>
      forall k :: 0 <= k < |peers.value.items| ==>
        WellFormed(peers.value.items[k]) && PrintablePeer(peers.value.items[k])
  {
    match peers
    case Some(Lst(items)) => Full(PeersOf(items))
    case Some(Text(_, data)) => if |data| % 6 == 0 then Compact(RecordsOf(data)) else BadCompact
    case _ => Unreadable
  }

  function NumberOf(v: Option<Value>): Option<int>
    requires v.Some? ==> WellFormed(v.value)
  {
    if v.Some? then Some(IntOf(v.value, -1)) else None
  }

  function Read(v: Value): Response
    requires WellFormed(v) && Printable(v)
  {
    if !v.Dct? then NotADict else
    var failure := Lookup(v, "failure reason");
    if failure.Some? then
      TrackerError(if failure.value.Text? then Some(failure.value.data) else None)
    else
      Normal(NumberOf(Lookup(v, "interval")), NumberOf(Lookup(v, "complete")),
             NumberOf(Lookup(v, "incomplete")), SectionOf(Lookup(v, "peers")))
  }

  // ---------------------------------------------------------------------------------------
  // The reader
  // ---------------------------------------------------------------------------------------

  /**
    benc_dict_value_offset on a tree in the buffer: negative exactly when the key is
    missing, else the place of the value.
   */
  method ValueOffset(s: bytes, p: int, key: cstr, ghost v: Value) returns (r: int)
    requires |s| <= INT_MAX
    requires TreeAt(s, p) == Some(v) && v.Dct? && 0 <= p
    ensures Lookup(v, key).None? <==> r < 0
    ensures r < 0 || r > 0
    ensures r > 0 ==> TreeAt(s, p + r) == Lookup(v, key)
  {
    hide IsAt, TypeAt, LengthAt, TreeAt, Encode, EncodeAll, Lookup, FindKey;
    TreeType(s, p);
    ValueAt(s, p, key);
    r := DictValueOffset(s, p, key);
  }

  /** fwrite of a bencoded string. */
  method StringData(s: bytes, p: int, ghost v: Value) returns (data: bytes)
    requires |s| <= INT_MAX
    requires TreeAt(s, p) == Some(v) && v.Text? && 0 <= p
    ensures data == v.data
  {
    hide TypeAt, LengthAt, TreeAt;
    var offset := StringDataOffset(s, p);
    var length := StringLength(s, p);
    IsAtSlice(s, p + offset, v.data);
    data := s[p + offset..p + offset + length];
  }

  method ReadNumber(s: bytes, p: int, key: cstr, ghost v: Value) returns (n: Option<int>)
    requires |s| <= INT_MAX
    requires TreeAt(s, p) == Some(v) && v.Dct? && 0 <= p
    ensures n == NumberOf(Lookup(v, key))
  {
    hide TreeAt, Lookup, IntOf;
    var offset := ValueOffset(s, p, key, v);
    if offset > 0 {
      var value := IntValue(s, p + offset, -1);
      return Some(value);
    }
    return None;
  }

  method ReadPeer(s: bytes, p: int, ghost v: Value) returns (r: Printed)
    requires |s| <= INT_MAX
    requires TreeAt(s, p) == Some(v) && PrintablePeer(v) && 0 <= p
    ensures r == PeerOf(v)
  {
    hide TreeAt, Lookup, IntOf, TypeAt, LengthAt;
    TreeType(s, p);
    var kind := EntityType(s, p);
    if kind != Dict {
      return Invalid;
    }
    var ip_offset := ValueOffset(s, p, "ip", v);
    var port_offset := ValueOffset(s, p, "port", v);
    var id_offset := ValueOffset(s, p, "peer id", v);
    if ip_offset < 0 || port_offset < 0 {
      return Incomplete;
    }
    var ip := StringData(s, p + ip_offset, Lookup(v, "ip").value);
    var port := IntValue(s, p + port_offset, -1);
    var id := None;
    if id_offset > 0 {
      var data := StringData(s, p + id_offset, Lookup(v, "peer id").value);
      id := Some(data);
    }
    return Peer(ip, port, id);
  }

  method ReadList(s: bytes, p: int, ghost v: Value) returns (r: seq<Printed>)
    requires |s| <= INT_MAX
    requires TreeAt(s, p) == Some(v) && v.Lst? && 0 <= p
    requires forall k :: 0 <= k < |v.items| ==> WellFormed(v.items[k]) && PrintablePeer(v.items[k])
    ensures r == PeersOf(v.items)
  {
    hide TreeAt, TypeAt, LengthAt, PeerOf, PrintablePeer, IsAt, Encode, ChildOffset, WellFormed;
    TreeType(s, p);
    r := [];
    var item: cint := 0;
    var item_offset := ListItemOffset(s, p, item);
    while item_offset > 0
      invariant 0 <= item <= |v.items|
      invariant item_offset > 0 <==> item < |v.items|
      invariant item < |v.items| ==> item_offset == ChildOffset(v.items, item)
      invariant r == PeersOf(v.items)[..item]
      decreases |v.items| - item
    {
      ChildAt(s, p, v, item);
      ChildOffsetGrows(v.items, item);
      var one := ReadPeer(s, p + item_offset, v.items[item]);
      r := r + [one];
      item_offset := ListItemOffset(s, p, item + 1);
      item := item + 1;
    }
  }

  lemma NoRecords()
    ensures RecordsOf([]) == []
  {
  }

  lemma RecordStep(s: bytes, p: nat, i: nat)
    requires p + i + 6 <= |s| && i % 6 == 0
    ensures RecordsOf(s[p..p + i + 6]) == RecordsOf(s[p..p + i]) +
      [Record(s[p + i..p + i + 4], 0x100 * (s[p + i + 4] as int) + (s[p + i + 5] as int))]
  {
    var d := s[p..p + i + 6];
    assert d[..|d| - 6] == s[p..p + i];
    var a, b := d[i..i + 4], s[p + i..p + i + 4];
    forall k | 0 <= k < 4 ensures a[k] == b[k] {}
    assert d[i..i + 4] == s[p + i..p + i + 4];
  }

  method ReadRecords(s: bytes, p: int, len: nat) returns (r: seq<Record>)
    requires 0 <= p && p + len <= |s| && len % 6 == 0
    ensures r == RecordsOf(s[p..p + len])
  {
    hide RecordsOf;
    r := [];
    var i := 0;
    assert s[p..p] == [] && RecordsOf([]) == [] by {
      NoRecords();
    }
    while i < len
      invariant 0 <= i <= len && i % 6 == 0
      invariant r == RecordsOf(s[p..p + i])
    {
      RecordStep(s, p, i);
      var port := 0x100 * (s[p + i + 4] as int) + (s[p + i + 5] as int);
      r := r + [Record(s[p + i..p + i + 4], port)];
      i := i + 6;
    }
  }

  method ReadSection(s: bytes, p: int, ghost v: Option<Value>) returns (r: Section)
    requires |s| <= INT_MAX
    requires 0 <= p ==> v.Some? && TreeAt(s, p) == v
    requires p < 0 ==> v.None?
    requires v.Some? && v.value.Lst? ==>
      forall k :: 0 <= k < |v.value.items| ==> WellFormed(v.value.items[k]) && PrintablePeer(v.value.items[k])
    ensures v.Some? ==> WellFormed(v.value)
    ensures r == SectionOf(v)
  {
    hide TreeAt, TypeAt, DigitRun, LengthAt, IsAt, PeerOf, PrintablePeer, WellFormed, Encode, RecordsOf, PeersOf;
    if 0 <= p {
      TreeType(s, p);
    }
    var kind := EntityType(s, p);
    if kind == List {
      var peers := ReadList(s, p, v.value);
      return Full(peers);
    } else if kind == String {
      var len := StringLength(s, p);
      var offset := StringDataOffset(s, p);
      IsAtSlice(s, p + offset, v.value.data);
      if len % 6 != 0 {
        return BadCompact;
      }
      var records := ReadRecords(s, p + offset, len);
      return Compact(records);
    }
    return Unreadable;
  }

  /** The reader on a whole response body. */
  method ReadResponse(body: bytes) returns (r: Response)
    requires |body| <= INT_MAX
    requires TypeAt(body, 0) == Dict ==> LengthAt(body, 0) != -1
    requires TreeAt(body, 0).Some? ==> Printable(TreeAt(body, 0).value)
    ensures r == if TreeAt(body, 0).Some? then Read(TreeAt(body, 0).value) else NotADict
  {
    hide TreeAt, LengthAt, TypeAt, IsAt, WellFormed, Lookup, IntOf, PrintablePeer, SectionOf;
    if TreeAt(body, 0).Some? {
      TreeType(body, 0);
    }
    var kind := EntityType(body, 0);
    if kind != Dict {
      return NotADict;
    }
    CompoundTree(body, 0);
    ghost var v := TreeAt(body, 0).value;
    var offset := ValueOffset(body, 0, "failure reason", v);
    if offset > 0 {
      TreeType(body, offset);
      var reason_type := EntityType(body, offset);
      if reason_type != String {
        return TrackerError(None);
      }
      var reason := StringData(body, offset, Lookup(v, "failure reason").value);
      return TrackerError(Some(reason));
    }
    var interval := ReadNumber(body, 0, "interval", v);
    var complete := ReadNumber(body, 0, "complete", v);
    var incomplete := ReadNumber(body, 0, "incomplete", v);
    offset := ValueOffset(body, 0, "peers", v);
    var section := ReadSection(body, offset, Lookup(v, "peers"));
    return Normal(interval, complete, incomplete, section);
  }
}
