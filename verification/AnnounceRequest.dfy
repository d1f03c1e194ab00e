/**
  The announce request: getpeers puts it together (getpeers/getpeers.c, getpeers/string.c,
  getpeers/net.c), parseSocket takes it apart.
 */
module AnnounceRequest {
  import opened CStrings
  import opened Encoding
  import opened NetText
  import opened Blocks
  import opened Comm
  import opened AnnounceLine

  // ---------------------------------------------------------------------------------------
  // string_merge
  // ---------------------------------------------------------------------------------------

  function Flatten(parts: seq<cstr>): (t: bytes)
    ensures forall k :: 0 <= k < |t| ==> t[k] != '\0'
  {
    if parts == [] then [] else Flatten(parts[..|parts| - 1]) + parts[|parts| - 1]
  }

  lemma FlattenNext(parts: seq<cstr>, i: nat)
    requires i < |parts|
    ensures Flatten(parts[..i + 1]) == Flatten(parts[..i]) + parts[i]
  {
    assert parts[..i + 1][..i] == parts[..i];
  }

  lemma {:induction false} FlattenGrows(parts: seq<cstr>, i: nat)
    requires i <= |parts|
    ensures |Flatten(parts[..i])| <= |Flatten(parts)|
    decreases |parts| - i
  {
    if i == |parts| {
      assert parts[..i] == parts;
    } else {
      FlattenNext(parts, i);
      FlattenGrows(parts, i + 1);
    }
  }

  /** string_merge: one pass adds up the lengths, the other copies. */
  method StringMerge(parts: seq<cstr>) returns (rv: array<byte>)
    ensures fresh(rv) && rv[..] == Flatten(parts) + ['\0']
  {
    hide Flatten;
    var len, i := 0, 0;
    NoParts(parts);
    while i < |parts|
      invariant 0 <= i <= |parts| && len == |Flatten(parts[..i])|
    {
      FlattenNext(parts, i);
      len := len + |parts[i]|;
      i := i + 1;
    }
    assert parts[..i] == parts;
    rv := new byte[len + 1](_ => '\0');
    var off: nat := 0;
    i := 0;
    while i < |parts|
      invariant 0 <= i <= |parts| && off == |Flatten(parts[..i])| <= len
      invariant rv[..off] == Flatten(parts[..i])
    {
      FlattenNext(parts, i);
      FlattenGrows(parts, i + 1);
      ghost var before := rv[..off];
      forall k | 0 <= k < |parts[i]| {
        rv[off + k] := parts[i][k];
      }
      assert rv[..off + |parts[i]|] == before + parts[i];
      off := off + |parts[i]|;
      i := i + 1;
    }
    assert parts[..i] == parts;
    rv[off] := '\0';
  }

  lemma NoParts(parts: seq<cstr>)
    ensures Flatten(parts[..0]) == []
  {
  }

  // ---------------------------------------------------------------------------------------
  // The request
  // ---------------------------------------------------------------------------------------

  function HashParts(path: cstr, hash: cstr): seq<cstr> {
    [path, "?info_hash=", hash, "&port="]
  }

  function OptionParts(o: Options): seq<cstr> {
    [PortText(o), "&numwant=", NumwantText(o), "&peer_id="]
  }

  function EventParts(peerid: cstr, o: Options): seq<cstr> {
    [peerid, if o.event.Some? then "&event=" else "", if o.event.Some? then o.event.value else "", "&compact="]
  }

  /** path_parts */
  function PathParts(path: cstr, hash: cstr, peerid: cstr, o: Options): seq<cstr> {
    HashParts(path, hash) + OptionParts(o) + EventParts(peerid, o) + [CompactText(o)]
  }

  // ---------------------------------------------------------------------------------------
  // The path and the line
  // ---------------------------------------------------------------------------------------

  lemma {:induction false} FlattenConcat(a: seq<cstr>, b: seq<cstr>)
    ensures Flatten(a + b) == Flatten(a) + Flatten(b)
    decreases |b|
  {
    if b == [] {
      assert a + b == a;
    } else {
      var s := a + b;
      assert s[..|s| - 1] == a + b[..|b| - 1];
      FlattenConcat(a, b[..|b| - 1]);
    }
  }

  lemma FlattenFour(a: cstr, b: cstr, c: cstr, d: cstr)
    ensures Flatten([a]) == a && Flatten([a, b, c, d]) == a + b + c + d
  {
    hide Flatten;
    var parts := [a, b, c, d];
    NoParts(parts);
    FlattenNext(parts, 0);
    FlattenNext(parts, 1);
    FlattenNext(parts, 2);
    FlattenNext(parts, 3);
    assert parts[..1] == [a] && parts[..4] == parts;
  }

  lemma PathText(path: cstr, hash: cstr, peerid: cstr, o: Options)
    ensures Flatten(PathParts(path, hash, peerid, o)) ==
      (path + "?info_hash=" + hash + "&port=")
      + (PortText(o) + "&numwant=" + NumwantText(o) + "&peer_id=")
      + (peerid + (if o.event.Some? then "&event=" else "") + (if o.event.Some? then o.event.value else "")
         + "&compact=")
      + CompactText(o)
  {
    hide Flatten, PortText, NumwantText, CompactText;
    FlattenFour(path, "?info_hash=", hash, "&port=");
    FlattenFour(PortText(o), "&numwant=", NumwantText(o), "&peer_id=");
    FlattenFour(peerid, if o.event.Some? then "&event=" else "", if o.event.Some? then o.event.value else "",
                "&compact=");
    FlattenFour(CompactText(o), "", "", "");
    var h, p, e := HashParts(path, hash), OptionParts(o), EventParts(peerid, o);
    FlattenConcat(h, p);
    FlattenConcat(h + p, e);
    FlattenConcat(h + p + e, [CompactText(o)]);
  }

  lemma RenderCons(b: Block, bs: seq<Block>, last: bytes)
    ensures Render([b] + bs, last) == b.text + ([b.sep] + b.name + ['='] + Render(bs, last))
  {
    assert ([b] + bs)[1..] == bs;
  }

  /** Right behind each other: a text, its separator, name and equals sign, and more. */
  lemma RenderNamed(text: bytes, i: nat, bs: seq<Block>, last: bytes)
    ensures Render([Block(text, '&', Name(i))] + bs, last) == text + (['&'] + Name(i) + ['=']) + Render(bs, last)
  {
    hide Render, Name;
    RenderCons(Block(text, '&', Name(i)), bs, last);
  }

  lemma LastText(peerid: cstr, o: Options)
    ensures Render(LastBlocks(peerid, o), CompactText(o)) == peerid + (if o.event.Some? then "&event=" else "")
      + (if o.event.Some? then o.event.value else "") + "&compact=" + CompactText(o)
  {
    hide Render, CompactText, Name;
    var c := CompactText(o);
    NothingRendered(c);
    LastWords();
    if o.event.Some? {
      var e := o.event.value;
      RenderNamed(e, 5, [], c);
      RenderNamed(peerid, 4, [Block(e, '&', Name(5))] + [], c);
      assert LastBlocks(peerid, o) == [Block(peerid, '&', Name(4))] + ([Block(e, '&', Name(5))] + []);
      Leftmost(peerid, "&event=", e, "&compact=", c);
    } else {
      RenderNamed(peerid, 5, [], c);
      assert LastBlocks(peerid, o) == [Block(peerid, '&', Name(5))] + [];
      NothingBetween(peerid, "&compact=", c);
    }
  }

  lemma LastWords()
    ensures ['&'] + Name(4) + ['='] == "&event=" && ['&'] + Name(5) + ['='] == "&compact="
  {
  }

  lemma Leftmost(a: bytes, b: bytes, c: bytes, d: bytes, e: bytes)
    ensures a + b + (c + d + e) == a + b + c + d + e
  {
  }

  lemma NothingBetween(a: bytes, b: bytes, c: bytes)
    ensures a + b + c == a + "" + "" + b + c
  {
  }

  lemma NothingRendered(last: bytes)
    ensures Render([], last) == last
  {
  }

  lemma LineText(rest: cstr, hash: cstr, peerid: cstr, o: Options)
    ensures Line(rest, hash, peerid, o) ==
      rest + ("?info_hash=" + (hash + ("&port=" + (PortText(o) + ("&numwant=" + (NumwantText(o) + ("&peer_id="
      + Render(LastBlocks(peerid, o), CompactText(o)))))))))
  {
    hide Render, CompactText, PortText, NumwantText, LastBlocks;
    var l, c := LastBlocks(peerid, o), CompactText(o);
    var b0, b1 := Block(rest, '?', Name(0)), Block(hash, '&', Name(1));
    var b2, b3 := Block(PortText(o), '&', Name(2)), Block(NumwantText(o), '&', Name(3));
    assert ['?'] + Name(0) + ['='] == "?info_hash=" && ['&'] + Name(1) + ['='] == "&port=";
    assert ['&'] + Name(2) + ['='] == "&numwant=" && ['&'] + Name(3) + ['='] == "&peer_id=";
    RenderCons(b3, l, c);
    RenderCons(b2, [b3] + l, c);
    RenderCons(b1, [b2] + ([b3] + l), c);
    RenderCons(b0, [b1] + ([b2] + ([b3] + l)), c);
    assert Sent(rest, hash, peerid, o) == [b0] + ([b1] + ([b2] + ([b3] + l)));
  }

  /** The merged path is the line the server reads, behind the word "announce". */
  lemma PathIsLine(path: cstr, rest: cstr, hash: cstr, peerid: cstr, o: Options)
    requires path == "announce" + rest
    ensures Flatten(PathParts(path, hash, peerid, o)) == "announce" + Line(rest, hash, peerid, o)
  {
    hide Render, PortText, NumwantText, LastBlocks, Flatten, PathParts, CompactText, Line;
    PathText(path, hash, peerid, o);
    LineText(rest, hash, peerid, o);
    LastText(peerid, o);
    Regroup(rest, hash, PortText(o), NumwantText(o),
            peerid + (if o.event.Some? then "&event=" else "") + (if o.event.Some? then o.event.value else "")
              + "&compact=", CompactText(o));
  }

  lemma Regroup(rest: bytes, hash: bytes, port: bytes, numwant: bytes, event: bytes, compact: bytes)
    ensures ("announce" + rest + "?info_hash=" + hash + "&port=") + (port + "&numwant=" + numwant + "&peer_id=")
        + event + compact
      == "announce" + (rest + ("?info_hash=" + (hash + ("&port=" + (port + ("&numwant=" + (numwant + ("&peer_id="
         + (event + compact)))))))))
  {
    RegroupFirst(rest, hash, (port + "&numwant=" + numwant + "&peer_id=") + event + compact);
    RegroupSecond(port, numwant, event + compact);
  }

  lemma RegroupFirst(rest: bytes, hash: bytes, more: bytes)
    ensures ("announce" + rest + "?info_hash=" + hash + "&port=") + more
      == "announce" + (rest + ("?info_hash=" + (hash + ("&port=" + more))))
  {
  }

  lemma RegroupSecond(port: bytes, numwant: bytes, more: bytes)
    ensures (port + "&numwant=" + numwant + "&peer_id=") + more
      == port + ("&numwant=" + (numwant + ("&peer_id=" + more)))
  {
  }

  // ---------------------------------------------------------------------------------------
  // From the command line to the wire
  // ---------------------------------------------------------------------------------------

  lemma EncodedField(enc: bytes, field: bytes, n: nat)
    requires |field| == FIELD && n <= FIELD && |enc| <= n && |enc| < FIELD
    requires |enc| == n ==> field[n] == '\0'
    requires forall k :: 0 <= k < |enc| ==> enc[k] != '\0'
    ensures CText(StrNCpy(enc, n) + field[n..]) == enc && Terminated(StrNCpy(enc, n) + field[n..])
  {
    StrLenIs(StrNCpy(enc, n) + field[n..], |enc|);
  }

  /**
    What getpeers does to its hash field: hex digits in, percent-encoding out. The field was
    zeroed, so a hash of 60 encoded bytes still finds its terminator in the last place.
   */
  method EncodeHash(hash: array<byte>)
    requires hash.Length == FIELD && hash[FIELD - 1] == '\0'
    requires Terminated(hash[..]) && |CText(hash[..])| == MAX_HEXENC_HASH_LEN && AllHex(CText(hash[..]))
    modifies hash
    ensures var bytes := HexDecode(old(CText(hash[..]))).out;
      && |bytes| == MAX_HASH_LEN && HexEncode(bytes) == old(CText(hash[..]))
      && CText(hash[..]) == UrlEncode(bytes) && Terminated(hash[..])
  {
    hide HexDecode, HexEncode, UrlEncode, AllHex, StrLen, HexVal, StrNCpy;
    ghost var digits := CText(hash[..]);
    HexReverse(digits);
    ghost var data := HexDecode(digits).out;
    var decoded := DestructiveHexDecode(hash);
    assert hash[..MAX_HASH_LEN] == data;
    assert hash[FIELD - 1] == '\0';
    ghost var field := hash[..];
    HashEncodeURL(hash, MAX_URLENC_HASH_LEN);
    EncodedIsClean(data);
    EncodedField(UrlEncode(data), field, MAX_URLENC_HASH_LEN);
  }

  // request_parts of http_get

  function HostParts(host: cstr, port: cstr): seq<cstr> {
    ["Host: ", host, ":", port, "\r\n"]
  }

  function AgentParts(): seq<cstr> {
    ["User-Agent: ", "traccoon/netlib", "\r\n"]
  }

  function AcceptParts(): seq<cstr> {
    ["Accept-Encoding: ", "text/plain", "\r\n", "Connection: ", "close", "\r\n", "\r\n"]
  }

  function RequestParts(path: cstr, host: cstr, port: cstr): seq<cstr> {
    ["GET /", path, " HTTP/1.1\r\n", ""] + (HostParts(host, port) + AgentParts() + AcceptParts())
  }

  lemma RequestText(path: cstr, host: cstr, port: cstr)
    ensures var headers := Flatten(HostParts(host, port) + AgentParts() + AcceptParts());
      Flatten(RequestParts(path, host, port)) == "GET /" + path + " " + ("HTTP/1.1\r\n" + headers)
  {
    hide Flatten, HostParts, AgentParts, AcceptParts;
    var headers := HostParts(host, port) + AgentParts() + AcceptParts();
    FlattenConcat(["GET /", path, " HTTP/1.1\r\n", ""], headers);
    FlattenFour("GET /", path, " HTTP/1.1\r\n", "");
    var text := Flatten(headers);
    assert "GET /" + path + " HTTP/1.1\r\n" + "" + text == "GET /" + path + " " + ("HTTP/1.1\r\n" + text);
  }

  lemma HostText(host: cstr, port: cstr)
    ensures Flatten(HostParts(host, port)) == "Host: " + host + ":" + port + "\r\n"
  {
    FlattenFour("Host: ", host, ":", port);
    var parts := HostParts(host, port);
    assert parts[..|parts| - 1] == ["Host: ", host, ":", port];
  }

  lemma AgentText()
    ensures Flatten(AgentParts()) == "User-Agent: traccoon/netlib\r\n"
  {
    FlattenFour("User-Agent: ", "traccoon/netlib", "\r\n", "");
    var parts: seq<cstr> := ["User-Agent: ", "traccoon/netlib", "\r\n", ""];
    assert parts[..|parts| - 1] == AgentParts();
  }

  lemma AcceptText()
    ensures Flatten(AcceptParts()) == "Accept-Encoding: text/plain\r\nConnection: close\r\n\r\n"
  {
    hide Flatten;
    FlattenFour("Accept-Encoding: ", "text/plain", "\r\n", "Connection: ");
    FlattenFour("close", "\r\n", "\r\n", "");
    var head: seq<cstr>, tail: seq<cstr> := ["Accept-Encoding: ", "text/plain", "\r\n", "Connection: "],
      ["close", "\r\n", "\r\n", ""];
    FlattenConcat(head, tail);
    var parts := head + tail;
    FlattenNext(parts, 7);
    assert parts[..7] == AcceptParts() && parts[..8] == parts;
    AcceptWords();
    assert Flatten(AcceptParts()) + "" == Flatten(AcceptParts());
  }

  lemma AcceptWords()
    ensures "Accept-Encoding: " + "text/plain" + "\r\n" + "Connection: " ==
      "Accept-Encoding: text/plain\r\nConnection: "
    ensures "close" + "\r\n" + "\r\n" + "" == "close\r\n\r\n"
    ensures "Accept-Encoding: text/plain\r\nConnection: " + "close\r\n\r\n" ==
      "Accept-Encoding: text/plain\r\nConnection: close\r\n\r\n"
  {
  }

  lemma RequestFlat(path: cstr, host: cstr, port: cstr)
    ensures Flatten(RequestParts(path, host, port)) == ("GET /" + path + " HTTP/1.1\r\n")
      + Flatten(HostParts(host, port)) + Flatten(AgentParts()) + Flatten(AcceptParts())
  {
    hide Flatten, HostParts, AgentParts, AcceptParts;
    var h, g, a := HostParts(host, port), AgentParts(), AcceptParts();
    var line := "GET /" + path + " HTTP/1.1\r\n";
    FlattenFour("GET /", path, " HTTP/1.1\r\n", "");
    FlattenConcat(h, g);
    FlattenConcat(h + g, a);
    FlattenConcat(["GET /", path, " HTTP/1.1\r\n", ""], h + g + a);
    FourTexts(line, Flatten(h), Flatten(g), Flatten(a));
  }

  lemma FourTexts(a: bytes, b: bytes, c: bytes, d: bytes)
    ensures a + "" + (b + c + d) == a + b + c + d
  {
  }

  /** The request as it goes over the wire. */
  lemma RequestIsHttp(path: cstr, host: cstr, port: cstr)
    ensures Flatten(RequestParts(path, host, port)) == ("GET /" + path + " HTTP/1.1\r\n")
      + ("Host: " + host + ":" + port + "\r\n")
      + "User-Agent: traccoon/netlib\r\n" + "Accept-Encoding: text/plain\r\nConnection: close\r\n\r\n"
  {
    hide Flatten, HostParts, AgentParts, AcceptParts, RequestParts;
    HostText(host, port);
    AgentText();
    AcceptText();
    RequestFlat(path, host, port);
  }

  /** The line the server reads is the one sent exactly when no space is in it. */
  lemma LineEnds(line: bytes, more: bytes, rest: cstr)
    requires rest == line + " " + more
    ensures LineOf(rest) == Some(line) <==> Lacks(line, ' ')
  {
    hide Find;
    assert rest[|line|] == ' ' && rest[..|line|] == line;
    forall k: nat ensures IsAt(rest, k, " ") <==> k < |rest| && rest[k] == ' ' {
      assert IsAt(rest, k, " ") ==> rest[k + 0] == ' ';
    }
    if Lacks(line, ' ') {
      forall k: nat | k < |line| ensures rest[k] != ' ' {
        assert rest[k] == line[k];
      }
      FindIs(rest, " ", Some(|line|));
    } else {
      var k :| 0 <= k < |line| && line[k] == ' ';
      assert IsAt(rest, k, " ");
      assert Find(rest, " ").Some? && Find(rest, " ").value <= k;
    }
  }

  lemma Prefixes(text: bytes, line: bytes, more: bytes)
    requires text == "GET /" + ("announce" + line) + " " + more
    ensures StartsWith(text, "GET /") && |text| >= 13 && text[13..] == line + " " + more
    ensures text[5..] == "announce" + (line + " " + more)
    ensures StartsWith(text[5..], "announce")
  {
    AnnouncePrefix(line + " " + more);
    hide StartsWith;
    assert text[5..] == "announce" + (line + " " + more);
    assert text[13..] == line + " " + more;
    GetPrefix("announce" + line + " " + more);
    assert text == "GET /" + ("announce" + line + " " + more);
  }

  lemma AnnouncePrefix(more: bytes)
    ensures StartsWith("announce" + more, "announce")
  {
  }

  lemma GetPrefix(more: bytes)
    ensures StartsWith("GET /" + more, "GET /")
  {
  }

  lemma ServerSees(text: cstr, line: bytes, more: bytes)
    requires text == "GET /" + ("announce" + line) + " " + more
    ensures StartsWith(text, "GET /") && |text| >= 13 && StartsWith(text[5..], "announce")
    ensures LineOf(text[13..]) == Some(line) <==> Lacks(line, ' ')
    ensures Lacks(line, ' ') ==> Dispatch(text, true) == Announced(Parse(LineOf(text[13..]).value))
  {
    hide StartsWith, LineOf, Lacks, Parse;
    Prefixes(text, line, more);
    LineEnds(line, more, text[13..]);
  }

  /** No space in the tracker's path and the options. */
  predicate Spaceless(rest: cstr, o: Options) {
    && Lacks(rest, ' ') && Lacks(PortText(o), ' ') && Lacks(NumwantText(o), ' ')
    && (o.event.Some? ==> Lacks(o.event.value, ' '))
  }

  lemma LineLacksSpace(rest: cstr, hash: cstr, peerid: cstr, o: Options)
    requires Lacks(hash, ' ') && Lacks(peerid, ' ')
    ensures Lacks(Line(rest, hash, peerid, o), ' ') <==> Spaceless(rest, o)
  {
    hide Render, Lacks, Sent, Name, PortText, NumwantText, CompactText;
    var bs := Sent(rest, hash, peerid, o);
    RenderLacks(bs, CompactText(o), ' ');
    CompactSpaceless(o);
    forall i | 0 <= i < |bs| ensures bs[i].sep != ' ' && Lacks(bs[i].name, ' ') {
      SentIs(rest, hash, peerid, o, i);
      NamesLack(NameNumber(o, i));
    }
    SentIs(rest, hash, peerid, o, 0);
    SentIs(rest, hash, peerid, o, 1);
    SentIs(rest, hash, peerid, o, 2);
    SentIs(rest, hash, peerid, o, 3);
    SentIs(rest, hash, peerid, o, 4);
    SentIs(rest, hash, peerid, o, 5);
  }

  lemma CompactSpaceless(o: Options)
    ensures Lacks(CompactText(o), ' ')
  {
  }

  /** getpeers from its fields to the bytes on the wire. */
  method BuildRequest(path: cstr, hash: cstr, peerid: cstr, o: Options, host: cstr, port: cstr) returns (text: cstr)
    ensures text == Flatten(RequestParts(Flatten(PathParts(path, hash, peerid, o)), host, port))
  {
    hide Flatten, PathParts, RequestParts;
    var merged := StringMerge(PathParts(path, hash, peerid, o));
    var full := merged[..merged.Length - 1];
    assert full == Flatten(PathParts(path, hash, peerid, o));
    var request := StringMerge(RequestParts(full, host, port));
    text := request[..request.Length - 1];
  }

  /** The request around the line. */
  lemma RequestIs(path: cstr, rest: cstr, h: cstr, i: cstr, o: Options, host: cstr, port: cstr, text: cstr)
    requires path == "announce" + rest
    requires text == Flatten(RequestParts(Flatten(PathParts(path, h, i, o)), host, port))
    ensures exists more: bytes :: text == "GET /" + ("announce" + Line(rest, h, i, o)) + " " + more
  {
    hide Flatten, PathParts, RequestParts, HostParts, AgentParts, AcceptParts, Line;
    PathIsLine(path, rest, h, i, o);
    RequestText(Flatten(PathParts(path, h, i, o)), host, port);
    var more := "HTTP/1.1\r\n" + Flatten(HostParts(host, port) + AgentParts() + AcceptParts());
    assert text == "GET /" + ("announce" + Line(rest, h, i, o)) + " " + more;
  }

  /** A tracker path and options whose request the server can take apart again. */
  predicate Usable(path: cstr, o: Options) {
    |path| >= 8 && path[..8] == "announce" && Findable(path[8..], o) && Spaceless(path[8..], o)
  }

  /**
    The server reads the line that was sent, and finds everything in its place in it, if and
    only if the request is usable.
   */
  lemma UsableExactly(path: cstr, hash: bytes, id: bytes, o: Options, host: cstr, port: cstr, text: cstr)
    requires |path| >= 8 && path[..8] == "announce"
    requires forall k :: 0 <= k < |UrlEncode(hash)| ==> UrlEncode(hash)[k] != '\0'
    requires forall k :: 0 <= k < |UrlEncode(id)| ==> UrlEncode(id)[k] != '\0'
    requires text == Flatten(RequestParts(Flatten(PathParts(path, UrlEncode(hash), UrlEncode(id), o)), host, port))
    ensures |text| >= 13
    ensures var line := Line(path[8..], UrlEncode(hash), UrlEncode(id), o);
      LineOf(text[13..]) == Some(line) && Located(line, path[8..], UrlEncode(hash), UrlEncode(id), o) <==>
        Usable(path, o)
    ensures Usable(path, o) ==>
      Dispatch(text, true) == Announced(Parse(Line(path[8..], UrlEncode(hash), UrlEncode(id), o)))
  {
    EncodedIsClean(hash);
    EncodedIsClean(id);
    hide UrlEncode, Flatten, PathParts, RequestParts, Line, Parse, LineOf, Lacks, PortText, NumwantText, IsAt, Dispatch,
      Located, Findable, Spaceless;
    var h: cstr, i: cstr, rest := UrlEncode(hash), UrlEncode(id), path[8..];
    assert path == "announce" + rest;
    RequestIs(path, rest, h, i, o, host, port, text);
    var line := Line(rest, h, i, o);
    var more: bytes :| text == "GET /" + ("announce" + line) + " " + more;
    ServerSees(text, line, more);
    LineLacksSpace(rest, h, i, o);
    FindsAll(rest, h, i, o);
  }

  /** Any other path is no announce to the server. */
  lemma OtherPath(path: cstr, h: cstr, i: cstr, o: Options, host: cstr, port: cstr, text: cstr)
    requires !(|path| >= 8 && path[..8] == "announce")
    requires text == Flatten(RequestParts(Flatten(PathParts(path, h, i, o)), host, port))
    ensures !Dispatch(text, true).Announced?
  {
    hide Flatten, PathParts, RequestParts, HostParts, AgentParts, AcceptParts, PortText, NumwantText, CompactText,
      LineOf, Parse, ScrapeOf;
    PathText(path, h, i, o);
    RequestText(Flatten(PathParts(path, h, i, o)), host, port);
    var more := text[5 + |path| + 1..];
    assert text[..5 + |path| + 1] == "GET /" + path + "?";
    assert text == "GET /" + (path + ("?" + more));
    assert text[5..] == path + ("?" + more);
    if StartsWith(path + ("?" + more), "announce") {
      AnnounceAhead(path, more);
    }
  }

  lemma AnnounceAhead(path: cstr, more: bytes)
    requires StartsWith(path + ("?" + more), "announce")
    ensures |path| >= 8 && path[..8] == "announce"
  {
    var s, w: bytes := path + ("?" + more), "announce";
    assert s[|path|] == '?';
    forall k | 0 <= k < 8 ensures s[k] == w[k] && s[k] != '?' {
      IsAtByte(s, 0, w, k);
    }
    assert forall k :: 0 <= k < 8 ==> path[k] == w[k];
  }

  lemma KeyArrives(data: bytes, field: bytes)
    requires |data| == MAX_HASH_LEN && |UrlEncode(data)| < FIELD && field == Field(UrlEncode(data))
    ensures Terminated(field) && HashBytes(field) == data
  {
    EncodedIsClean(data);
    hide UrlEncode, Field;
    FieldText(UrlEncode(data));
    UrlRoundTrip(data);
    HashBytesDecoded(field);
  }

  lemma PeerArrives(id: bytes, field: bytes)
    requires |UrlEncode(id)| < FIELD && field == Field(UrlEncode(id))
    ensures CText(field) == UrlEncode(id)
  {
    EncodedIsClean(id);
    FieldText(UrlEncode(id));
  }

  /** Both fields and the options, if the request is an announce that is accepted. */
  lemma Received(path: cstr, hash: bytes, id: bytes, o: Options, host: cstr, port: cstr, text: cstr,
                 info_hash: bytes, peer_id: bytes)
    requires Usable(path, o) && |hash| == |id| == MAX_HASH_LEN
    requires forall k :: 0 <= k < |UrlEncode(hash)| ==> UrlEncode(hash)[k] != '\0'
    requires forall k :: 0 <= k < |UrlEncode(id)| ==> UrlEncode(id)[k] != '\0'
    requires text == Flatten(RequestParts(Flatten(PathParts(path, UrlEncode(hash), UrlEncode(id), o)), host, port))
    requires FilledBy(text, info_hash, peer_id)
    ensures Terminated(info_hash) && HashBytes(info_hash) == hash && CText(peer_id) == UrlEncode(id)
  {
    hide UrlEncode, Flatten, PathParts, RequestParts, Line, Parse, ParamsSent, StrLen, Findable, Spaceless, Dispatch,
      LineOf, HashBytes, Field, Param, After, Located;
    UsableExactly(path, hash, id, o, host, port, text);
    ParsesBack(path[8..], hash, UrlEncode(hash), id, UrlEncode(id), o);
    KeyArrives(hash, info_hash);
    PeerArrives(id, peer_id);
  }

  lemma IsAccepted(path: cstr, hash: bytes, id: bytes, o: Options, host: cstr, port: cstr, text: cstr)
    requires Usable(path, o) && |hash| == |id| == MAX_HASH_LEN
    requires forall k :: 0 <= k < |UrlEncode(hash)| ==> UrlEncode(hash)[k] != '\0'
    requires forall k :: 0 <= k < |UrlEncode(id)| ==> UrlEncode(id)[k] != '\0'
    requires text == Flatten(RequestParts(Flatten(PathParts(path, UrlEncode(hash), UrlEncode(id), o)), host, port))
    ensures text != [] && Dispatch(text, true) == Announced(Accepted(ParamsSent(o)))
  {
    hide UrlEncode, Flatten, PathParts, RequestParts, Parse, ParamsSent, Dispatch, LineOf, Line, Findable, Spaceless,
      Located, StrLen;
    UsableExactly(path, hash, id, o, host, port, text);
    ParsesBack(path[8..], hash, UrlEncode(hash), id, UrlEncode(id), o);
  }

  lemma FilledFields(text: cstr, info_hash: bytes, peer_id: bytes)
    requires FilledBy(text, info_hash, peer_id)
    ensures |info_hash| == FIELD && Terminated(info_hash) && Terminated(peer_id)
  {
    hide Field, StrLen, Param, LineOf, After;
    var line := LineOf(text[13..]).value;
    FieldText(Param(line, After(line, "info_hash=").value));
    FieldText(Param(line, After(line, "peer_id=").value));
  }

  /**
    Client to server: a hash of 40 lower-case hex digits and a peer id of 20 bytes, sent to a
    usable tracker path, arrive as the same 40 digits and the same encoded id, with the
    options as strtoul and an int hold them, unless the request is too long to be read.
   */
  method Deliver(hash: array<byte>, id: bytes, path: cstr, o: Options, host: cstr, port: cstr)
    returns (text: cstr, outcome: Outcome, key: bytes, peerid: bytes)
    requires hash.Length == FIELD && hash[FIELD - 1] == '\0'
    requires Terminated(hash[..]) && |CText(hash[..])| == MAX_HEXENC_HASH_LEN && AllHex(CText(hash[..]))
    requires |id| == MAX_HASH_LEN
    modifies hash
    ensures Usable(path, o) && |text| < 1023 ==> outcome == Announced(Accepted(ParamsSent(o)))
    ensures Usable(path, o) && |text| < 1023 ==> Meant(o, outcome.verdict.params)
    ensures Usable(path, o) && |text| < 1023 ==> key == old(CText(hash[..])) && peerid == UrlEncode(id)
    ensures |text| >= 1023 ==> outcome == Erroneous
  {
    hide UrlEncode, HexDecode, HexEncode, Flatten, PathParts, RequestParts, ParamsSent, StrLen, AllHex, Usable,
      Dispatch, LineOf, HashBytes, FilledBy, Meant, Unfinished;
    EncodeHash(hash);
    SentMeans(o);
    ghost var data := HexDecode(old(CText(hash[..]))).out;
    EncodedIsClean(data);
    EncodedIsClean(id);
    text := BuildRequest(path, CText(hash[..]), UrlEncode(id), o, host, port);
    var info_hash, peer_id := new byte[FIELD](_ => '\0'), new byte[FIELD](_ => '\0');
    var handled;
    outcome, handled := ParseSocket(if |text| < 1023 then text else text[..1023], 0, true, info_hash, peer_id);
    key, peerid := [], [];
    WholeText(text);
    if Usable(path, o) {
      IsAccepted(path, data, id, o, host, port, text);
    }
    if |text| < 1023 && outcome.Announced? && outcome.verdict.Accepted? {
      FilledFields(text, info_hash[..], peer_id[..]);
      if Usable(path, o) {
        Received(path, data, id, o, host, port, text, info_hash[..], peer_id[..]);
      }
      var hashlen := TorrentKey(info_hash);
      key, peerid := CText(info_hash[..]), CText(peer_id[..]);
    }
  }
}
