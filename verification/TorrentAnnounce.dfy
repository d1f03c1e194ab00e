/**
  The way of a torrent file through `getpeers` to the tracker (getpeers/getpeers.c): hash and
  tracker address out of the file, the address taken apart, the request built, and what the
  server makes of it.
 */
module TorrentAnnounce {
  import opened CStrings
  import opened Encoding
  import opened Limits
  import opened Comm
  import opened AnnounceLine
  import opened AnnounceRequest
  import Bencode
  import TorrentFile
  import Url

  /** The tracker address in the file, taken apart. */
  ghost function Tracker(buffer: bytes): Option<Url.Components> {
    match TorrentFile.AnnounceText(buffer)
    case None => None
    case Some(text) =>
      match Url.Split(CText(text))
      case Parsed(u) => Some(u)
      case _ => None
  }

  lemma ShownText(a: bytes, pos: nat, text: cstr)
    requires Url.Stands(a, pos, text)
    ensures CText(a[pos..]) == text
  {
    var s := a[pos..];
    forall k | 0 <= k < |text| ensures s[k] == text[k] && s[k] != '\0' {
      IsAtByte(a, pos, text, k);
    }
    StrLenIs(s, |text|);
  }

  lemma BufferText(text: bytes, a: bytes)
    requires a == text + ['\0']
    ensures Terminated(a) && CText(a) == CText(text)
  {
    var n := StrLen(text);
    assert forall k :: 0 <= k < |text| ==> a[k] == text[k];
    StrLenIs(a, n);
  }

  /** The tracker address in a buffer of its own, taken apart in place. */
  method ParseTracker(text: bytes) returns (u: Option<Url.Components>, fault: bool)
    ensures fault <==> Url.Split(CText(text)).Fault?
    ensures match Url.Split(CText(text))
      case Parsed(v) => u == Some(v)
      case _ => u == None
  {
    hide Url.Split, Url.Stands, CText, StrLen;
    var url := new byte[|text| + 1](i => if 0 <= i < |text| then text[i] else '\0');
    assert url[..] == text + ['\0'];
    BufferText(text, url[..]);
    var rv;
    rv, fault := Url.ParseUrlDestructive(url);
    if fault || rv.status != 0 {
      return None, fault;
    }
    ghost var v := Url.Split(CText(text)).url;
    Shown(url[..], rv, v);
    var protocol, host := CText(url[rv.protocol.value..]), CText(url[rv.host.value..]);
    var path := CText(url[rv.path.value..]);
    var credentials: Option<cstr> := if rv.credentials.Some? then Some(CText(url[rv.credentials.value..])) else None;
    var port: Option<cstr> := if rv.port.Some? then Some(CText(url[rv.port.value..])) else None;
    return Some(Url.Components(protocol, credentials, host, port, path)), false;
  }

  lemma Shown(a: bytes, rv: Url.Pointers, u: Url.Components)
    requires Url.Reads(a, rv, Url.Parsed(u))
    ensures rv.protocol.Some? && rv.protocol.value <= |a| && CText(a[rv.protocol.value..]) == u.protocol
    ensures rv.host.Some? && rv.host.value <= |a| && CText(a[rv.host.value..]) == u.host
    ensures rv.path.Some? && rv.path.value <= |a| && CText(a[rv.path.value..]) == u.path
    ensures rv.port.Some? <==> u.port.Some?
    ensures rv.port.Some? ==> rv.port.value <= |a| && CText(a[rv.port.value..]) == u.port.value
    ensures rv.credentials.Some? <==> u.credentials.Some?
    ensures rv.credentials.Some? ==>
      rv.credentials.value <= |a| && CText(a[rv.credentials.value..]) == u.credentials.value
  {
    hide CText, IsAt;
    ShownText(a, rv.protocol.value, u.protocol);
    ShownText(a, rv.host.value, u.host);
    ShownText(a, rv.path.value, u.path);
    if u.port.Some? {
      ShownText(a, rv.port.value, u.port.value);
    }
    if u.credentials.Some? {
      ShownText(a, rv.credentials.value, u.credentials.value);
    }
  }

  /**
    A torrent file announced: the request is sent if and only if the file names a tracker that
    is spoken to by http and has an info dict; the server then files the client under the hex
    digits of the hash of exactly that dict.
   */
  method AnnounceTorrent(buffer: bytes, id: bytes, o: Options, sha1: TorrentFile.Sha1)
    returns (sent: bool, fault: bool, text: cstr, outcome: Outcome, key: bytes, peerid: bytes)
    requires |id| == MAX_HASH_LEN && |buffer| <= INT_MAX && Bencode.LengthFits(buffer, 0)
    ensures sent <==>
      TorrentFile.InfoText(buffer).Some? && Tracker(buffer).Some? && Tracker(buffer).value.protocol == "http"
    ensures fault <==>
      && TorrentFile.InfoText(buffer).Some? && TorrentFile.AnnounceText(buffer).Some?
      && Url.Split(CText(TorrentFile.AnnounceText(buffer).value)).Fault?
    ensures sent && Usable(Tracker(buffer).value.path, o) && |text| < 1023 ==>
      && key == HexEncode(sha1(TorrentFile.InfoText(buffer).value)) && peerid == UrlEncode(id)
      && outcome == Announced(Accepted(ParamsSent(o))) && Meant(o, outcome.verdict.params)
  {
    hide TorrentFile.Torrent, TorrentFile.AnnounceText, TorrentFile.InfoText, Url.Split, UrlEncode, HexEncode, CText,
      Usable, StrLen, Bencode.LengthFits, ParamsSent, Meant;
    sent, fault, text, outcome, key, peerid := false, false, [], Erroneous, [], [];
    var hash := new byte[FIELD](_ => '\0');
    ghost var was := hash[..];
    var status, tracker := TorrentFile.ReadTorrentFile(buffer, None, hash, sha1);
    InfoNeedsTorrent(buffer);
    if status != 0 {
      return;
    }
    var u;
    u, fault := ParseTracker(tracker.value);
    if u.None? || u.value.protocol != "http" {
      return;
    }
    sent := true;
    var port: cstr := if u.value.port.Some? then u.value.port.value else "80";
    LastStays(was, hash[..]);
    text, outcome, key, peerid := Deliver(hash, id, u.value.path, o, u.value.host, port);
  }

  lemma LastStays(a: bytes, b: bytes)
    requires |a| == |b| == FIELD && a[MAX_HEXENC_HASH_LEN + 1..] == b[MAX_HEXENC_HASH_LEN + 1..]
    ensures a[FIELD - 1] == b[FIELD - 1]
  {
    var k := FIELD - 1 - (MAX_HEXENC_HASH_LEN + 1);
    assert a[MAX_HEXENC_HASH_LEN + 1..][k] == b[MAX_HEXENC_HASH_LEN + 1..][k];
  }

  lemma InfoNeedsTorrent(buffer: bytes)
    ensures TorrentFile.InfoText(buffer).Some? || TorrentFile.AnnounceText(buffer).Some? ==>
      TorrentFile.Torrent(buffer).Some?
  {
  }
}
