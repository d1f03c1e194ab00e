/**
  The line of an announce request as getpeers writes it (getpeers/getpeers.c) and parseSocket
  reads it (comm.c): when the server finds every parameter where the client put it.
 */
module AnnounceLine {
  import opened Limits
  import opened CStrings
  import opened Encoding
  import opened NetText
  import opened Blocks
  import opened Comm

  /** The options of getpeers that go into the request. */
  datatype Options = Options(port: Option<cstr>, numwant: Option<cstr>, event: Option<cstr>, compact: bool)

  function PortText(o: Options): cstr {
    if o.port.Some? then o.port.value else "6969"
  }

  function NumwantText(o: Options): cstr {
    if o.numwant.Some? then o.numwant.value else "50"
  }

  /** The names of the parameters that are sent, and of the two that only the server knows. */
  function Name(i: nat): bytes {
    match i
    case 0 => "info_hash"
    case 1 => "port"
    case 2 => "numwant"
    case 3 => "peer_id"
    case 4 => "event"
    case 5 => "compact"
    case 6 => "left"
    case _ => "no_peer_id"
  }

  function LastBlocks(peerid: cstr, o: Options): seq<Block> {
    if o.event.Some? then [Block(peerid, '&', Name(4)), Block(o.event.value, '&', Name(5))]
    else [Block(peerid, '&', Name(5))]
  }

  /** What the path adds to "announce": the rest of the tracker's own path, then the parameters. */
  function Sent(rest: cstr, hash: cstr, peerid: cstr, o: Options): seq<Block> {
    [Block(rest, '?', Name(0)), Block(hash, '&', Name(1)), Block(PortText(o), '&', Name(2)),
     Block(NumwantText(o), '&', Name(3))] + LastBlocks(peerid, o)
  }

  function CompactText(o: Options): cstr {
    if o.compact then "1" else "0"
  }

  /** The line the server reads. */
  function Line(rest: cstr, hash: cstr, peerid: cstr, o: Options): bytes {
    Render(Sent(rest, hash, peerid, o), CompactText(o))
  }

  /** Where the value stands that the i-th name introduces. */
  function ValueStart(rest: cstr, hash: cstr, peerid: cstr, o: Options, i: nat): nat {
    if i < |Sent(rest, hash, peerid, o)| then ValueAt(Sent(rest, hash, peerid, o), i) else 0
  }

  /** The number of the i-th name sent. */
  function NameNumber(o: Options, i: nat): nat {
    if i == 4 && o.event.None? then 5 else i
  }

  lemma SentIs(rest: cstr, hash: cstr, peerid: cstr, o: Options, i: nat)
    ensures |Sent(rest, hash, peerid, o)| == if o.event.Some? then 6 else 5
    ensures i < |Sent(rest, hash, peerid, o)| ==>
      Sent(rest, hash, peerid, o)[i] == Block(
        match i
        case 0 => rest
        case 1 => hash
        case 2 => PortText(o)
        case 3 => NumwantText(o)
        case 4 => peerid
        case _ => if o.event.Some? then o.event.value else "",
        if i == 0 then '?' else '&', Name(NameNumber(o, i)))
  {
  }

  // ---------------------------------------------------------------------------------------
  // No name ends in another
  // ---------------------------------------------------------------------------------------

  lemma EndsDifferently(s: bytes, w: bytes, i: nat)
    requires i < |s| && i < |w| && s[|s| - 1 - i] != w[|w| - 1 - i]
    ensures !EndsWith(s, w)
  {
    if |w| <= |s| {
      assert s[|s| - |w|..][|w| - 1 - i] == s[|s| - 1 - i];
    }
  }

  lemma OnlyItself(i: nat, j: nat)
    requires i < 6 && j < 8
    ensures EndsWith(Name(i), Name(j)) <==> i == j
  {
    if i == j {
      assert Name(i)[0..] == Name(i);
    } else if i == 3 && j == 7 {
      assert |Name(3)| < |Name(7)|;
    } else {
      LastLetters(i, j);
      EndsDifferently(Name(i), Name(j), if i == 0 || i == 3 || j == 0 || j == 3 || j == 7 then 0
                                        else if i + j == 6 && i != j && i != 1 && i != 5 then 2 else 1);
    }
  }

  lemma LastLetters(i: nat, j: nat)
    requires i < 6 && j < 8 && i != j && !(i == 3 && j == 7)
    ensures
      var k := if i == 0 || i == 3 || j == 0 || j == 3 || j == 7 then 0
               else if i + j == 6 && i != 1 && i != 5 then 2 else 1;
      && k < |Name(i)| && k < |Name(j)|
      && Name(i)[|Name(i)| - 1 - k] != Name(j)[|Name(j)| - 1 - k]
  {
  }

  lemma NamesLack(i: nat)
    ensures Lacks(Name(i), '=') && Lacks(Name(i), '?') && Lacks(Name(i), '&') && Lacks(Name(i), ' ')
    ensures Searchable(Name(i), []) && Searchable(Name(i), "1")
  {
    NameLetters(i);
    hide Name;
  }

  lemma NameLetters(i: nat)
    ensures forall k :: 0 <= k < |Name(i)| ==> 'a' <= Name(i)[k] <= 'z' || Name(i)[k] == '_'
  {
  }

  /** The j-th name is sent once, in its place. */
  lemma SentOnce(rest: cstr, hash: cstr, peerid: cstr, o: Options, j: nat)
    requires j < 8
    ensures var bs := Sent(rest, hash, peerid, o);
      && Separated(bs)
      && forall i :: 0 <= i < |bs| ==> (EndsWith(bs[i].name, Name(j)) <==> NameNumber(o, i) == j)
  {
    hide EndsWith, Lacks, Name, Sent;
    var bs := Sent(rest, hash, peerid, o);
    forall i | 0 <= i < |bs|
      ensures (bs[i].sep == '?' || bs[i].sep == '&') && Lacks(bs[i].name, '=')
      ensures EndsWith(bs[i].name, Name(j)) <==> NameNumber(o, i) == j
    {
      SentIs(rest, hash, peerid, o, i);
      OnlyItself(NameNumber(o, i), j);
      NamesLack(NameNumber(o, i));
    }
  }

  // ---------------------------------------------------------------------------------------
  // Finding the parameters
  // ---------------------------------------------------------------------------------------

  /** None of the texts contains the word. */
  predicate Free(texts: seq<bytes>, w: bytes) {
    forall i :: 0 <= i < |texts| ==> Find(texts[i], w).None?
  }

  /** The texts in front of the peer id that the user or the tracker has chosen. */
  function Ahead(rest: cstr, o: Options): seq<bytes> {
    [rest, PortText(o), NumwantText(o)]
  }

  function Chosen(rest: cstr, o: Options): seq<bytes> {
    Ahead(rest, o) + if o.event.Some? then [o.event.value] else []
  }

  /** Nothing that is looked for stands in a text in front of the place where it is meant to be found. */
  predicate Findable(rest: cstr, o: Options) {
    && Free([rest], "info_hash=") && Free([rest], "port=") && Free([rest, PortText(o)], "numwant=")
    && Free(Ahead(rest, o), "peer_id=") && Free(Ahead(rest, o), "event=")
    && Free(Chosen(rest, o), "left=") && Free(Chosen(rest, o), "no_peer_id=1")
    && (o.compact || Free(Chosen(rest, o), "compact=1"))
  }

  /** textAfter finds every parameter where it was put, and no other; the flags are found as they were set. */
  ghost predicate Located(line: bytes, rest: cstr, hash: cstr, peerid: cstr, o: Options) {
    hide Find, ValueStart;
    && After(line, "info_hash=") == Some(ValueStart(rest, hash, peerid, o, 0))
    && After(line, "port=") == Some(ValueStart(rest, hash, peerid, o, 1))
    && After(line, "numwant=") == Some(ValueStart(rest, hash, peerid, o, 2))
    && After(line, "peer_id=") == Some(ValueStart(rest, hash, peerid, o, 3))
    && After(line, "event=") == (if o.event.Some? then Some(ValueStart(rest, hash, peerid, o, 4)) else None)
    && After(line, "left=") == None
    && (Find(line, "compact=1").Some? <==> o.compact)
    && Find(line, "no_peer_id=1").None?
  }

  lemma NotIn(s: bytes, w: bytes)
    requires Lacks(s, '=') && '=' in w
    ensures Find(s, w).None?
  {
    hide Find;
    var j :| 0 <= j < |w| && w[j] == '=';
    var f := Find(s, w);
    if f.Some? {
      IsAtByte(s, f.value, w, j);
    }
  }

  /** What the encoded hash and peer id have no part in. */
  lemma TextsFree(rest: cstr, hash: cstr, peerid: cstr, o: Options, w: bytes)
    requires Lacks(hash, '=') && Lacks(peerid, '=') && '=' in w
    ensures var bs := Sent(rest, hash, peerid, o);
      && |bs| >= 5
      && (FreeTo(bs, w, 0) <==> Free([rest], w)) && (FreeTo(bs, w, 1) <==> Free([rest], w))
      && (FreeTo(bs, w, 2) <==> Free([rest, PortText(o)], w))
      && (FreeTo(bs, w, 3) <==> Free(Ahead(rest, o), w)) && (FreeTo(bs, w, 4) <==> Free(Ahead(rest, o), w))
      && (InText(bs, w) <==> !Free(Chosen(rest, o), w))
  {
    hide Find, Lacks, PortText, NumwantText, Name, Sent;
    NotIn(hash, w);
    NotIn(peerid, w);
    SentIs(rest, hash, peerid, o, 0);
    SentIs(rest, hash, peerid, o, 1);
    SentIs(rest, hash, peerid, o, 2);
    SentIs(rest, hash, peerid, o, 3);
    SentIs(rest, hash, peerid, o, 4);
    SentIs(rest, hash, peerid, o, 5);
    var t := Chosen(rest, o);
    assert t[0] == rest && t[1] == PortText(o) && t[2] == NumwantText(o) && (o.event.Some? ==> t[3] == o.event.value);
  }

  /** A parameter that is sent. */
  lemma FindsName(rest: cstr, hash: cstr, peerid: cstr, o: Options, j: nat)
    requires Lacks(hash, '=') && Lacks(peerid, '=') && j < 5 && (j == 4 ==> o.event.Some?)
    ensures After(Line(rest, hash, peerid, o), Name(j) + ['=']) == Some(ValueStart(rest, hash, peerid, o, j)) <==>
      Free(if j < 2 then [rest] else if j == 2 then [rest, PortText(o)] else Ahead(rest, o), Name(j) + ['='])
  {
    hide Find, Lacks, Name, Sent, EndsWith, Free, FreeTo, InText, Render, Searchable, ValueAt, PortText, NumwantText;
    var bs := Sent(rest, hash, peerid, o);
    SentIs(rest, hash, peerid, o, j);
    SentOnce(rest, hash, peerid, o, j);
    NamesLack(j);
    FoundAt(bs, CompactText(o), Name(j), j);
    TextsFree(rest, hash, peerid, o, Name(j) + ['=']);
  }

  lemma CompactLacks(o: Options, w: bytes)
    requires '=' in w
    ensures Find(CompactText(o), w).None?
  {
    NotIn(CompactText(o), w);
  }

  /** What is not sent, and the flags. */
  lemma FindsWord(rest: cstr, hash: cstr, peerid: cstr, o: Options, j: nat, tail: bytes)
    requires Lacks(hash, '=') && Lacks(peerid, '=') && 4 <= j < 8 && (j == 4 ==> o.event.None?)
    requires tail == [] || tail == "1"
    ensures var w := Name(j) + ['='] + tail;
      Find(Line(rest, hash, peerid, o), w).Some? <==>
        !Free(Chosen(rest, o), w) || (j == 5 && IsAt(CompactText(o), 0, tail))
  {
    hide Find, Lacks, Name, Sent, EndsWith, Free, FreeTo, InText, IsAt, Searchable, PortText, NumwantText, CompactText;
    var bs, w := Sent(rest, hash, peerid, o), Name(j) + ['='] + tail;
    SentIs(rest, hash, peerid, o, 0);
    var n := |bs|;
    SentIs(rest, hash, peerid, o, n - 1);
    SentOnce(rest, hash, peerid, o, j);
    NamesLack(j);
    FoundSomewhere(bs, CompactText(o), Name(j), tail);
    TextsFree(rest, hash, peerid, o, w);
    CompactLacks(o, w);
    if j == 5 {
      assert EndsWith(bs[n - 1].name, Name(j)) && Render(bs[n - 1 + 1..], CompactText(o)) == CompactText(o);
    }
  }

  lemma Words()
    ensures Name(0) + ['='] == "info_hash=" && Name(1) + ['='] == "port=" && Name(2) + ['='] == "numwant="
    ensures Name(3) + ['='] == "peer_id=" && Name(4) + ['='] == "event=" && Name(6) + ['='] == "left="
    ensures Name(4) + ['='] + [] == "event=" && Name(6) + ['='] + [] == "left="
    ensures Name(5) + ['='] + "1" == "compact=1" && Name(7) + ['='] + "1" == "no_peer_id=1"
  {
  }

  lemma CompactIs(o: Options)
    ensures IsAt(CompactText(o), 0, "1") <==> o.compact
  {
    var t: bytes := CompactText(o);
    assert t[0] == '1' <==> o.compact;
    if IsAt(t, 0, "1") {
      IsAtByte(t, 0, "1", 0);
    }
  }

  lemma NoEventChosen(rest: cstr, o: Options)
    requires o.event.None?
    ensures Chosen(rest, o) == Ahead(rest, o)
  {
  }

  /**
    The server finds every parameter where the client put it if and only if the tracker's path
    and the options contain none of the words it looks for in front of their places.
   */
  lemma FindsAll(rest: cstr, hash: cstr, peerid: cstr, o: Options)
    requires Lacks(hash, '=') && Lacks(peerid, '=')
    ensures Located(Line(rest, hash, peerid, o), rest, hash, peerid, o) <==> Findable(rest, o)
  {
    hide Find, Lacks, Name, Free, IsAt, PortText, NumwantText, CompactText, Line, ValueStart, Ahead, Chosen;
    Words();
    CompactIs(o);
    FindsName(rest, hash, peerid, o, 0);
    FindsName(rest, hash, peerid, o, 1);
    FindsName(rest, hash, peerid, o, 2);
    FindsName(rest, hash, peerid, o, 3);
    if o.event.Some? {
      FindsName(rest, hash, peerid, o, 4);
    } else {
      FindsWord(rest, hash, peerid, o, 4, []);
      NoEventChosen(rest, o);
    }
    FindsWord(rest, hash, peerid, o, 6, []);
    FindsWord(rest, hash, peerid, o, 5, "1");
    FindsWord(rest, hash, peerid, o, 7, "1");
  }

  // ---------------------------------------------------------------------------------------
  // Two tracker paths
  // ---------------------------------------------------------------------------------------

  /** A path with a parameter of its own, such as a pass key, hides nothing. */
  lemma OwnParameter(rest: cstr, name: bytes, value: bytes, o: Options)
    requires rest == [] + (['?'] + name + ['='] + value) && Lacks(name, '=') && Lacks(value, '=')
    requires forall j :: 0 <= j < 8 ==> !EndsWith(name, Name(j))
    requires forall i :: 0 < i < |Chosen(rest, o)| ==> Lacks(Chosen(rest, o)[i], '=')
    ensures Findable(rest, o)
  {
    hide Find, Lacks, Name, EndsWith, Chosen, Ahead, Free, PortText, NumwantText;
    Words();
    OwnFree(rest, name, value, o, 0, []);
    OwnFree(rest, name, value, o, 1, []);
    OwnFree(rest, name, value, o, 2, []);
    OwnFree(rest, name, value, o, 3, []);
    OwnFree(rest, name, value, o, 4, []);
    OwnFree(rest, name, value, o, 6, []);
    OwnFree(rest, name, value, o, 5, "1");
    OwnFree(rest, name, value, o, 7, "1");
  }

  lemma OwnFree(rest: cstr, name: bytes, value: bytes, o: Options, j: nat, tail: bytes)
    requires rest == [] + (['?'] + name + ['='] + value) && Lacks(name, '=') && Lacks(value, '=')
    requires j < 8 && !EndsWith(name, Name(j)) && (tail == [] || tail == "1")
    requires forall i :: 0 < i < |Chosen(rest, o)| ==> Lacks(Chosen(rest, o)[i], '=')
    ensures var w := if tail == [] then Name(j) + ['='] else Name(j) + ['='] + tail;
      && Free(Chosen(rest, o), w) && Free(Ahead(rest, o), w)
      && Free([rest], w) && Free([rest, PortText(o)], w)
  {
    hide Find, Lacks, Name, EndsWith, PortText, NumwantText;
    var w, t := Name(j) + ['='] + tail, Chosen(rest, o);
    assert tail == [] ==> w == Name(j) + ['='];
    NamesLack(j);
    BlockFinds([], '?', name, value, Name(j), tail);
    NotIn(value, w);
    assert Lacks([], '=') by {
      NothingLacks();
    }
    NotIn([], w);
    forall i | 0 <= i < |t| ensures Find(t[i], w).None? {
      if i > 0 {
        NotIn(t[i], w);
      }
    }
    assert t[0] == rest && t[1] == PortText(o) && t[2] == NumwantText(o);
  }

  lemma NothingLacks()
    ensures Lacks([], '=')
  {
  }

  /** With this one the server takes 1 for the port, whichever port is sent. */
  lemma PortFromPath(hash: cstr, peerid: cstr, o: Options)
    ensures NumberAt(Line("?port=1", hash, peerid, o), After(Line("?port=1", hash, peerid, o), "port=")) == 1
    ensures !Findable("?port=1", o)
  {
    hide StrToUl, Find, Render, Free, CompactText;
    var bs := Sent("?port=1", hash, peerid, o);
    RenderFirst(bs, CompactText(o));
    ReadsOne(Line("?port=1", hash, peerid, o));
    FoundInPath();
  }

  lemma ReadsOne(line: bytes)
    requires |line| >= 8 && line[..8] == "?port=1?"
    ensures After(line, "port=") == Some(6) && StrToUl(line, 6) == 1
  {
    assert line[0] == '?' && line[1] == 'p' && line[2] == 'o' && line[3] == 'r' && line[4] == 't' && line[5] == '='
      && line[6] == '1' && line[7] == '?';
    assert !IsAt(line, 0, "port=") by {
      assert line[0 + 0] != "port="[0];
    }
    FindIs(line, "port=", Some(1));
    DigitsAt(line, 6, "1");
    assert DecValue("1") == 1 by {
      assert "1"[..0] == "";
    }
  }

  lemma FoundInPath()
    ensures !Free(["?port=1"], "port=")
  {
    var t: bytes := "?port=1";
    assert IsAt(t, 1, "port=");
    assert Find(t, "port=").Some?;
    assert Find(["?port=1"][0], "port=").Some?;
  }

  // ---------------------------------------------------------------------------------------
  // Reading the values
  // ---------------------------------------------------------------------------------------

  /** The value behind the j-th name. */
  function ValueSent(hash: cstr, peerid: cstr, o: Options, j: nat): bytes {
    match j
    case 0 => hash
    case 1 => PortText(o)
    case 2 => NumwantText(o)
    case 3 => peerid
    case _ => if o.event.Some? then o.event.value else ""
  }

  lemma ValueArrives(rest: cstr, hash: cstr, peerid: cstr, o: Options, j: nat)
    requires j < 4 || (j == 4 && o.event.Some?)
    ensures var line, p, v := Line(rest, hash, peerid, o), ValueStart(rest, hash, peerid, o, j),
                              ValueSent(hash, peerid, o, j);
      IsAt(line, p, v) && p + |v| <= |line| && At(line, p + |v|) == '&'
  {
    hide Render, ValueAt, IsAt, Name, Sent, PortText, NumwantText, CompactText;
    SentIs(rest, hash, peerid, o, j + 1);
    ValueStands(Sent(rest, hash, peerid, o), CompactText(o), j);
  }

  /** An encoded value is one parameter, and it counts as the bytes it encodes. */
  lemma EncodedParam(line: bytes, p: nat, data: bytes)
    requires IsAt(line, p, UrlEncode(data)) && Delimiter(At(line, p + |UrlEncode(data)|))
    ensures Param(line, p) == UrlEncode(data)
    ensures DecodedLength(line, p, ParamLength(line, p)) == |data|
  {
    hide UrlEncode, IsAt;
    var e := UrlEncode(data);
    UrlEncodeChars(data);
    forall k | p <= k < p + |e| ensures !Delimiter(At(line, k)) {
      IsAtByte(line, p, e, k - p);
      assert EncodedChar(e[k - p]);
    }
    ParamLengthIs(line, p, |e|);
    IsAtSlice(line, p, e);
    EncodedCounts(line, p, |e|, 0, data);
  }

  lemma {:induction false} EncodedCounts(line: bytes, p: nat, mlen: nat, i: nat, data: bytes)
    requires IsAt(line, p + i, UrlEncode(data)) && i + |UrlEncode(data)| == mlen
    ensures DecodedLength(line, p, mlen, i) == |data|
    decreases |data|
  {
    hide UrlEncode, IsAt, Escape;
    if data == [] {
      NothingEncoded([]);
    } else {
      var c, rest := data[0], data[1..];
      assert data == [c] + rest;
      UrlEncodeCons(c, rest);
      IsAtConcat(line, p + i, Escape(c), UrlEncode(rest));
      EscapeCounts(line, p + i, c);
      EncodedCounts(line, p, mlen, i + |Escape(c)|, rest);
    }
  }

  lemma EscapeCounts(line: bytes, q: nat, c: byte)
    requires IsAt(line, q, Escape(c))
    ensures At(line, q) != '\0'
    ensures |Escape(c)| == if CountsAsEscape(line, q) then 3 else 1
  {
    if !Unreserved(c) {
      IsAtByte(line, q, Escape(c), 1);
      IsAtByte(line, q, Escape(c), 2);
      HexCharNotNul(c as int / 16);
      HexCharNotNul(c as int % 16);
    }
    IsAtByte(line, q, Escape(c), 0);
  }

  lemma HexCharNotNul(n: nat)
    requires n < 16
    ensures HexChar(n) != '\0'
  {
  }

  /** strtoul on a text with an ampersand behind it sees the text only. */
  lemma NumberReads(line: bytes, p: nat, text: bytes)
    requires IsAt(line, p, text) && At(line, p + |text|) == '&'
    ensures StrToUl(line, p) == StrToUl(text, 0)
  {
    hide IsAt, SkipSpace, ULong, ToInt, DecValue, Digits;
    SkipsAlike(line, p, text, 0);
    var q := SkipSpace(text, 0);
    AtAlike(line, p, text, q);
    var i := if At(text, q) == '-' || At(text, q) == '+' then q + 1 else q;
    DigitsAlike(line, p, text, i);
  }

  lemma AtAlike(line: bytes, p: nat, text: bytes, i: nat)
    requires IsAt(line, p, text) && At(line, p + |text|) == '&' && i <= |text|
    ensures i < |text| ==> At(line, p + i) == At(text, i)
    ensures i == |text| ==> At(line, p + i) == '&' && At(text, i) == '\0'
  {
  }

  lemma {:induction false} SkipsAlike(line: bytes, p: nat, text: bytes, i: nat)
    requires IsAt(line, p, text) && At(line, p + |text|) == '&' && i <= |text|
    ensures SkipSpace(line, p + i) == p + SkipSpace(text, i) && SkipSpace(text, i) <= |text|
    decreases |text| - i
  {
    hide IsAt, At;
    AtAlike(line, p, text, i);
    if i < |text| && IsSpace(At(text, i)) {
      SkipsAlike(line, p, text, i + 1);
    }
  }

  lemma DigitsAlike(line: bytes, p: nat, text: bytes, i: nat)
    requires IsAt(line, p, text) && At(line, p + |text|) == '&' && i <= |text|
    ensures Digits(line, p + i) == Digits(text, i)
  {
    var d := Digits(text, i);
    AtAlike(line, p, text, i + |d|);
    forall k | 0 <= k < |d| ensures line[p + i + k] == d[k] {
      assert line[p + (i + k)] == text[i + k];
    }
    hide DigitRun;
    DigitsAt(line, p + i, d);
  }

  /** The event is told from its first three letters, so that an ampersand behind it changes nothing. */
  lemma EventReads(line: bytes, p: nat, text: bytes)
    requires IsAt(line, p, text) && At(line, p + |text|) == '&'
    ensures EventAt(line, Some(p)) == EventAt(text, Some(0))
  {
    hide IsAt, At;
    AtAlike(line, p, text, 0);
    if |text| >= 1 {
      AtAlike(line, p, text, 1);
    }
    if |text| >= 2 {
      AtAlike(line, p, text, 2);
    }
  }

  /** A number that an int can hold, and no other, is read as what it says. */
  lemma ArrivesExact(digits: bytes)
    requires |digits| >= 1 && AllDigits(digits)
    ensures StrToUl(digits, 0) == DecValue(digits) <==> DecValue(digits) <= INT_MAX
  {
    hide DecValue;
    assert At(digits, 0) == digits[0];
    DigitsAt(digits, 0, digits);
    ULongExact(DecValue(digits));
  }

  // ---------------------------------------------------------------------------------------
  // The server understands what the client meant
  // ---------------------------------------------------------------------------------------

  predicate Undelimited(s: bytes) {
    Lacks(s, '=') && Lacks(s, ' ')
  }

  lemma EncodedIsClean(data: bytes)
    ensures Undelimited(UrlEncode(data)) && forall k :: 0 <= k < |UrlEncode(data)| ==> UrlEncode(data)[k] != '\0'
  {
    hide UrlEncode;
    var e := UrlEncode(data);
    UrlEncodeChars(data);
    assert forall k :: 0 <= k < |e| ==> EncodedChar(e[k]);
  }

  function EventSent(o: Options): Event {
    EventAt(if o.event.Some? then o.event.value else "", Some(0))
  }

  /** What the options say, as strtoul and the first three letters of the event say it. */
  function ParamsSent(o: Options): Params {
    Params(StrToUl(PortText(o), 0), EventSent(o), ClampNumwant(StrToUl(NumwantText(o), 0)), 0, o.compact, false)
  }

  /** What the options mean: the event by its first three letters, numbers in digits by their value. */
  predicate Meant(o: Options, p: Params) {
    && (o.event.None? ==> p.event == NoEvent)
    && (o.event.Some? ==> MeantEvent(o.event.value, p.event))
    && (o.port.None? ==> p.port == 6969)
    && (o.port.Some? && Numeral(o.port.value) ==> p.port == DecValue(o.port.value))
    && (o.numwant.None? ==> p.numwant == 50)
    && (o.numwant.Some? && Numeral(o.numwant.value) ==>
          p.numwant == if 1 <= DecValue(o.numwant.value) <= 50 then DecValue(o.numwant.value) else 50)
    && p.left == 0 && p.compact == o.compact && !p.noPeerId
  }

  predicate MeantEvent(text: bytes, e: Event) {
    && (e == Started <==> |text| >= 3 && (text[..3] == "sta" || text[..3] == "coa"))
    && (e == Stopped <==> |text| >= 3 && (text[..3] == "sto" || text[..3] == "coo"))
    && (e == Completed <==> |text| >= 3 && (text[..3] == "stm" || text[..3] == "com"))
  }

  predicate Numeral(text: bytes) {
    |text| >= 1 && AllDigits(text) && DecValue(text) <= INT_MAX
  }

  lemma EventMeans(text: bytes)
    ensures MeantEvent(text, EventAt(text, Some(0)))
  {
    hide EventAt;
    EventLetters(text, 0);
    if |text| >= 3 {
      assert [At(text, 0), At(text, 1), At(text, 2)] == text[..3];
    } else {
      assert [At(text, 0), At(text, 1), At(text, 2)][2] == '\0';
    }
  }

  lemma NumeralMeans(text: bytes)
    requires Numeral(text)
    ensures StrToUl(text, 0) == DecValue(text)
  {
    hide DecValue;
    ArrivesExact(text);
  }

  lemma Defaults()
    ensures Numeral("6969") && DecValue("6969") == 6969 && Numeral("50") && DecValue("50") == 50
  {
    assert "6969"[..3] == "696" && "696"[..2] == "69" && "69"[..1] == "6" && "6"[..0] == "";
    assert "50"[..1] == "5" && "5"[..0] == "";
    assert DecValue("6") == 6 && DecValue("69") == 69 && DecValue("696") == 696;
    assert DecValue("5") == 5;
  }

  /** What is sent is what is meant. */
  lemma SentMeans(o: Options)
    ensures Meant(o, ParamsSent(o))
  {
    hide StrToUl, DecValue, Numeral, EventAt, MeantEvent;
    Defaults();
    NumeralMeans("6969");
    NumeralMeans("50");
    if o.port.Some? && Numeral(o.port.value) {
      NumeralMeans(o.port.value);
    }
    if o.numwant.Some? && Numeral(o.numwant.value) {
      NumeralMeans(o.numwant.value);
    }
    if o.event.Some? {
      EventMeans(o.event.value);
    } else {
      NoEventSent(o);
    }
  }

  predicate ReadsAs(line: bytes, name: bytes, value: bytes) {
    After(line, name).Some? && Param(line, After(line, name).value) == value
  }

  predicate GatePasses(line: bytes, name: bytes) {
    After(line, name).Some? && PassesGate(line, After(line, name).value)
  }

  lemma FieldsArrive(rest: cstr, hash: bytes, h: cstr, id: bytes, i: cstr, o: Options)
    requires Findable(rest, o) && |hash| == |id| == MAX_HASH_LEN
    requires h == UrlEncode(hash) && i == UrlEncode(id)
    ensures ReadsAs(Line(rest, h, i, o), "info_hash=", h) && GatePasses(Line(rest, h, i, o), "info_hash=")
    ensures ReadsAs(Line(rest, h, i, o), "peer_id=", i) && GatePasses(Line(rest, h, i, o), "peer_id=")
  {
    EncodedIsClean(hash);
    EncodedIsClean(id);
    hide UrlEncode, Line, ValueStart, Find, After, IsAt, ParamLength, DecodedLength, Param, PortText, NumwantText,
      Lacks, Findable;
    FindsAll(rest, h, i, o);
    ValueArrives(rest, h, i, o, 0);
    EncodedParam(Line(rest, h, i, o), ValueStart(rest, h, i, o, 0), hash);
    ValueArrives(rest, h, i, o, 3);
    EncodedParam(Line(rest, h, i, o), ValueStart(rest, h, i, o, 3), id);
  }

  lemma OptionsArrive(rest: cstr, h: cstr, i: cstr, o: Options)
    ensures var line := Line(rest, h, i, o);
      && StrToUl(line, ValueStart(rest, h, i, o, 1)) == StrToUl(PortText(o), 0)
      && StrToUl(line, ValueStart(rest, h, i, o, 2)) == StrToUl(NumwantText(o), 0)
      && (o.event.Some? ==> EventAt(line, Some(ValueStart(rest, h, i, o, 4))) == EventSent(o))
  {
    hide Line, ValueStart, StrToUl, PortText, NumwantText, IsAt, EventAt;
    var line := Line(rest, h, i, o);
    ValueArrives(rest, h, i, o, 1);
    NumberReads(line, ValueStart(rest, h, i, o, 1), PortText(o));
    ValueArrives(rest, h, i, o, 2);
    NumberReads(line, ValueStart(rest, h, i, o, 2), NumwantText(o));
    if o.event.Some? {
      ValueArrives(rest, h, i, o, 4);
      EventReads(line, ValueStart(rest, h, i, o, 4), o.event.value);
    }
  }

  /** parseSocket reads the options, the hash and the peer id as they were written. */
  lemma ParsesBack(rest: cstr, hash: bytes, h: cstr, id: bytes, i: cstr, o: Options)
    requires Findable(rest, o) && |hash| == |id| == MAX_HASH_LEN
    requires h == UrlEncode(hash) && i == UrlEncode(id)
    ensures Parse(Line(rest, h, i, o)) == Accepted(ParamsSent(o))
    ensures ReadsAs(Line(rest, h, i, o), "info_hash=", h) && ReadsAs(Line(rest, h, i, o), "peer_id=", i)
  {
    hide UrlEncode, Line, ValueStart, Find, After, PassesGate, StrToUl, Param, EventAt, ClampNumwant, PortText,
      NumwantText, Lacks, Findable, ReadsAs;
    EncodedIsClean(hash);
    EncodedIsClean(id);
    FieldsArrive(rest, hash, h, id, i, o);
    FindsAll(rest, h, i, o);
    OptionsArrive(rest, h, i, o);
    if o.event.None? {
      NoEventSent(o);
    }
  }

  lemma NoEventSent(o: Options)
    requires o.event.None?
    ensures EventSent(o) == NoEvent
  {
  }
}
