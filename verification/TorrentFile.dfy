/**
  read_torrentfile (getpeers/file.c): tracker address and info hash out of a torrent file.
  The file has been read into `buffer`; SHA1 is a parameter.
 */
module TorrentFile {
  import opened CStrings
  import opened Bencode
  import opened BencodeAccess
  import opened Encoding
  import opened Limits

  type digest = b: bytes | |b| == MAX_HASH_LEN witness seq(MAX_HASH_LEN, i => '\0')
  type Sha1 = bytes -> digest

  /** The torrent is the tree at the start of the file, whatever follows it. */
  ghost function Torrent(buffer: bytes): Option<Value> {
    if TreeAt(buffer, 0).Some? && TreeAt(buffer, 0).value.Dct? then TreeAt(buffer, 0) else None
  }

  /** The payload of the "announce" value. */
  ghost function AnnounceText(buffer: bytes): Option<bytes> {
    match Torrent(buffer)
    case None => None
    case Some(t) =>
      var v := Lookup(t, "announce");
      if v.Some? && v.value.Text? then Some(v.value.data) else None
  }

  /** The raw encoding of the "info" value, if that is a dict. */
  ghost function InfoText(buffer: bytes): Option<bytes> {
    match Torrent(buffer)
    case None => None
    case Some(t) =>
      var v := Lookup(t, "info");
      if v.Some? && v.value.Dct? then Some(Encode(v.value)) else None
  }

  /** A torrent file as it is made: tracker address, info dict, and whatever else; what is read is what was put in. */
  lemma TorrentReadBack(url: bytes, info: Value, rest: seq<Value>, more: bytes)
    requires WellFormed(info) && info.Dct? && WellFormed(Dct(rest))
    ensures var t := Dct(Pair("announce", TextTree(url)) + (Pair("info", info) + rest));
      WellFormed(t) && AnnounceText(Encode(t) + more) == Some(url) && InfoText(Encode(t) + more) == Some(Encode(info))
  {
    hide WellFormed, Encode, EncodeAll, TreeAt, Lookup, IsAt, Dec;
    TextTreeEncode(url);
    PairWellFormed("announce", TextTree(url));
    PairWellFormed("info", info);
    LookupPair("info", info, rest, "info");
    LookupPair("announce", TextTree(url), Pair("info", info) + rest, "announce");
    LookupPair("announce", TextTree(url), Pair("info", info) + rest, "info");
    var t := Dct(Pair("announce", TextTree(url)) + (Pair("info", info) + rest));
    IsAtSlice(Encode(t) + more, 0, Encode(t));
    assert (Encode(t) + more)[0..0 + |Encode(t)|] == Encode(t);
    TreeAtIs(Encode(t) + more, 0, t);
  }

  lemma ValidTorrent(buffer: bytes)
    ensures Torrent(buffer).Some? <==> TypeAt(buffer, 0) == Dict && LengthAt(buffer, 0) >= 0
  {
    hide IsAt, TypeAt, LengthAt;
    if Torrent(buffer).Some? {
      TreeType(buffer, 0);
    }
    if TypeAt(buffer, 0) == Dict && LengthAt(buffer, 0) >= 0 {
      CompoundTree(buffer, 0);
    }
  }

  lemma NothingBefore(buffer: bytes)
    ensures TypeAt(buffer, -1) == Fail && LengthAt(buffer, -1) == -1 && LengthFits(buffer, -1)
  {
  }

  /** The tracker address: a pointer to the value, its length, and where its bytes start. */
  method ReadTracker(buffer: bytes) returns (tracker: Option<bytes>)
    requires |buffer| <= INT_MAX && Torrent(buffer).Some?
    ensures tracker == AnnounceText(buffer)
  {
    hide IsAt, TypeAt, LengthAt, TreeAt, DigitRun, Encode, ChildOffset, FindKey;
    ValidTorrent(buffer);
    ValueAt(buffer, 0, "announce");
    NothingBefore(buffer);
    var offset := DictValueOffset(buffer, 0, "announce");
    var length := StringLength(buffer, offset);
    if offset >= 0 {
      TreeType(buffer, offset);
    }
    if offset < 0 || length < 0 {
      return None;
    }
    var data := StringDataOffset(buffer, offset);
    IsAtSlice(buffer, offset + data, TreeAt(buffer, offset).value.data);
    return Some(buffer[offset + data..offset + data + length]);
  }

  /** What is handed to SHA1. */
  method ReadInfo(buffer: bytes) returns (info: Option<bytes>)
    requires |buffer| <= INT_MAX && Torrent(buffer).Some?
    ensures info == InfoText(buffer)
  {
    hide IsAt, TypeAt, LengthAt, LengthFits, DigitRun, Encode, ChildOffset, FindKey;
    ValidTorrent(buffer);
    ValueAt(buffer, 0, "info");
    NothingBefore(buffer);
    var offset := DictValueOffset(buffer, 0, "info");
    if offset >= 0 {
      TreeFits(buffer, offset);
    }
    var length := EntityLength(buffer, offset);
    var kind := EntityType(buffer, offset);
    if offset >= 0 {
      TreeType(buffer, offset);
      IsAtSlice(buffer, offset, Encode(TreeAt(buffer, offset).value));
    }
    if offset < 0 || length < 0 || kind != Dict {
      return None;
    }
    return Some(buffer[offset..offset + length]);
  }

  /** The hex digits of the hash and a NUL. */
  method WriteHash(hash_temp: digest, hash: array<byte>)
    requires hash.Length > MAX_HEXENC_HASH_LEN
    modifies hash
    ensures hash[..] == HexEncode(hash_temp) + ['\0'] + old(hash[MAX_HEXENC_HASH_LEN + 1..])
  {
    hide HexEncode, HexChar, HexVal, HEXDICT;
    ghost var rest := hash[MAX_HEXENC_HASH_LEN + 1..];
    NoHex(hash_temp);
    var i := 0;
    while i < MAX_HASH_LEN
      invariant 0 <= i <= MAX_HASH_LEN
      invariant hash[..2 * i] == HexEncode(hash_temp[..i])
      invariant hash[MAX_HEXENC_HASH_LEN + 1..] == rest
    {
      HexDictAt(hash_temp[i] as int / 16);
      HexDictAt(hash_temp[i] as int % 16);
      HexEncodeNext(hash_temp, i);
      ghost var before := hash[..2 * i];
      hash[i * 2] := HEXDICT[hash_temp[i] as int / 16];
      hash[i * 2 + 1] := HEXDICT[hash_temp[i] as int % 16];
      assert hash[..2 * i + 2] == before + [HexChar(hash_temp[i] as int / 16), HexChar(hash_temp[i] as int % 16)];
      i := i + 1;
    }
    hash[i * 2] := '\0';
    assert hash_temp[..i] == hash_temp;
    assert hash[..MAX_HEXENC_HASH_LEN] == HexEncode(hash_temp);
  }

  /**
    A tracker or a hash that the caller brings along is left alone. Otherwise the tracker is
    exactly the payload of the first "announce", and the hash is taken of exactly the bytes of
    the first "info"; the call fails exactly when one that is needed is not there.
   */
  method ReadTorrentFile(buffer: bytes, given: Option<bytes>, hash: array<byte>, sha1: Sha1)
    returns (status: int, tracker: Option<bytes>)
    requires |buffer| <= INT_MAX && LengthFits(buffer, 0)
    requires hash.Length > MAX_HEXENC_HASH_LEN
    modifies hash
    ensures var wanted := old(hash[0]) == '\0';
      && (status == 0 <==>
            && Torrent(buffer).Some?
            && (given.None? ==> AnnounceText(buffer).Some?) && (wanted ==> InfoText(buffer).Some?))
      && (status == 0 ==> tracker == if given.Some? then given else AnnounceText(buffer))
      && (status == 0 && wanted ==> CText(hash[..]) == HexEncode(sha1(InfoText(buffer).value)))
      && (status == 0 && wanted ==>
            && Terminated(hash[..])
            && hash[MAX_HEXENC_HASH_LEN + 1..] == old(hash[MAX_HEXENC_HASH_LEN + 1..]))
    ensures status == 0 || status == -1
    ensures status != 0 || old(hash[0]) != '\0' ==> hash[..] == old(hash[..])
  {
    hide TypeAt, LengthAt, LengthFits, Torrent, AnnounceText, InfoText, HexEncode;
    tracker := given;
    ValidTorrent(buffer);
    var kind := EntityType(buffer, 0);
    var n := EntityLength(buffer, 0);
    if kind != Dict || n < 0 {
      return -1, tracker;
    }
    if tracker.None? {
      tracker := ReadTracker(buffer);
      if tracker.None? {
        return -1, tracker;
      }
    }
    if hash[0] == '\0' {
      var info := ReadInfo(buffer);
      if info.None? {
        return -1, tracker;
      }
      ghost var rest := hash[MAX_HEXENC_HASH_LEN + 1..];
      WriteHash(sha1(info.value), hash);
      HexText(sha1(info.value), rest);
      assert CText(hash[..]) == HexEncode(sha1(info.value));
    }
    return 0, tracker;
  }
}
