/**
  The request parser (comm.c). Input is what recv has peeked at; sending is left to the
  caller, so the result says what the request was found to be.
 */
module Comm {
  import opened CStrings
  import opened Encoding
  import opened Limits
  import opened NetText

  const FIELD := MAX_URLENC_HASH_LEN + 1

  datatype Event = NoEvent | Completed | Stopped | Started

  /** The fields of ANNOUNCE_REQUEST that are not byte arrays. */
  datatype Params = Params(port: cint, event: Event, numwant: cint, left: cint, compact: bool, noPeerId: bool)

  datatype Verdict = Accepted(params: Params) | MissingParameter | OutOfBounds

  // ---------------------------------------------------------------------------------------
  // Values of parameters
  // ---------------------------------------------------------------------------------------

  predicate IsSpace(c: byte) {
    c == ' ' || 9 <= c as int <= 13
  }

  function SkipSpace(s: bytes, p: nat): (q: nat)
    ensures p <= q
    decreases |s| - p
  {
    if IsSpace(At(s, p)) then SkipSpace(s, p + 1) else p
  }

  /** strtoul as stored in an int: white space, a sign, digits; 0 without digits. */
  function StrToUl(s: bytes, p: nat): cint {
    var q := SkipSpace(s, p);
    var signed := At(s, q) == '-' || At(s, q) == '+';
    var value := DecValue(Digits(s, if signed then q + 1 else q));
    ToInt(ULong(At(s, q) == '-', value))
  }

  function NumberAt(s: bytes, p: Option<nat>): cint {
    if p.Some? then StrToUl(s, p.value) else 0
  }

  /** Zero, negative and large numbers of wanted peers all become the maximum. */
  function ClampNumwant(n: cint): (r: cint)
    ensures 1 <= r <= MAXPEERS_SENT
    ensures 1 <= n <= MAXPEERS_SENT <==> r == n
  {
    if n > MAXPEERS_SENT || n <= 0 then MAXPEERS_SENT else n
  }

  /** Three letters decide: `sta`, `sto`, `com` and the mixtures of these. */
  function EventAt(s: bytes, p: Option<nat>): (e: Event)
    ensures p.None? ==> e == NoEvent
  {
    if p.None? then NoEvent else
    var a, b, c := At(s, p.value), At(s, p.value + 1), At(s, p.value + 2);
    if (a == 's' && b == 't') || (a == 'c' && b == 'o') then
      match c
      case 'a' => Started
      case 'o' => Stopped
      case 'm' => Completed
      case _ => NoEvent
    else NoEvent
  }

  /** Which three bytes behind `event=` are which event. */
  lemma EventLetters(s: bytes, p: nat)
    ensures var abc := [At(s, p), At(s, p + 1), At(s, p + 2)]; var e := EventAt(s, Some(p));
      && (e == Started <==> abc == "sta" || abc == "coa")
      && (e == Stopped <==> abc == "sto" || abc == "coo")
      && (e == Completed <==> abc == "stm" || abc == "com")
  {
    var abc := [At(s, p), At(s, p + 1), At(s, p + 2)];
    assert abc[0] == At(s, p) && abc[1] == At(s, p + 1) && abc[2] == At(s, p + 2);
  }

  /** The three events a client announces. */
  lemma EventNames(s: bytes, p: nat)
    ensures IsAt(s, p, "started") ==> EventAt(s, Some(p)) == Started
    ensures IsAt(s, p, "stopped") ==> EventAt(s, Some(p)) == Stopped
    ensures IsAt(s, p, "completed") ==> EventAt(s, Some(p)) == Completed
  {
    hide EventAt;
    EventLetters(s, p);
    FirstThree(s, p, "started");
    FirstThree(s, p, "stopped");
    FirstThree(s, p, "completed");
    assert "started"[..3] == "sta" && "stopped"[..3] == "sto" && "completed"[..3] == "com";
  }

  lemma FirstThree(s: bytes, p: nat, w: bytes)
    requires |w| >= 3
    ensures IsAt(s, p, w) ==> [At(s, p), At(s, p + 1), At(s, p + 2)] == w[..3]
  {
    if IsAt(s, p, w) {
      IsAtByte(s, p, w, 0);
      IsAtByte(s, p, w, 1);
      IsAtByte(s, p, w, 2);
    }
  }

  /** A number written in digits, with something else behind. */
  lemma NumberStands(s: bytes, p: nat, digits: bytes)
    requires |digits| >= 1 && AllDigits(digits) && IsAt(s, p, digits) && !IsDigit(At(s, p + |digits|))
    ensures DecValue(digits) <= INT_MAX ==> StrToUl(s, p) == DecValue(digits)
  {
    hide DecValue, DigitRun;
    IsAtByte(s, p, digits, 0);
    DigitsAt(s, p, digits);
    ULongExact(DecValue(digits));
  }

  /** The six characters that strtoul skips in front of a number. */
  predicate Blank(c: byte) {
    c in {' ', '\t', '\n', 11 as char, 12 as char, '\r'}
  }

  lemma {:induction false} SkipsBlanks(s: bytes, p: nat, n: nat)
    requires forall k :: p <= k < p + n ==> Blank(At(s, k))
    requires !Blank(At(s, p + n))
    ensures SkipSpace(s, p) == p + n
    decreases n
  {
    if n > 0 {
      SkipsBlanks(s, p + 1, n - 1);
    }
  }

  /** A number with blanks and a sign in front of it. */
  lemma SignedStands(s: bytes, p: nat, n: nat, sign: bytes, digits: bytes)
    requires forall k :: p <= k < p + n ==> Blank(At(s, k))
    requires sign == [] || sign == "-" || sign == "+"
    requires |digits| >= 1 && AllDigits(digits) && DecValue(digits) <= INT_MAX
    requires IsAt(s, p + n, sign + digits) && !IsDigit(At(s, p + n + |sign| + |digits|))
    ensures StrToUl(s, p) == if sign == "-" then 0 - DecValue(digits) else DecValue(digits)
  {
    hide DecValue, DigitRun, SkipSpace, IsAt, Blank, ULong, ToInt, At;
    IsAtConcat(s, p + n, sign, digits);
    SignFirst(s, p + n, sign, digits);
    SkipsBlanks(s, p, n);
    DigitsAt(s, p + n + |sign|, digits);
    IntOfSigned(sign == "-", DecValue(digits));
  }

  lemma SignFirst(s: bytes, q: nat, sign: bytes, digits: bytes)
    requires sign == [] || sign == "-" || sign == "+"
    requires |digits| >= 1 && AllDigits(digits) && IsAt(s, q, sign) && IsAt(s, q + |sign|, digits)
    ensures !Blank(At(s, q))
    ensures At(s, q) == '-' <==> sign == "-"
    ensures At(s, q) == '+' <==> sign == "+"
    ensures |sign| == if At(s, q) == '-' || At(s, q) == '+' then 1 else 0
  {
    hide IsAt;
    IsAtByte(s, q + |sign|, digits, 0);
    if sign != [] {
      IsAtByte(s, q, sign, 0);
    }
  }

  lemma IntOfSigned(neg: bool, value: nat)
    requires value <= INT_MAX
    ensures ToInt(ULong(neg, value)) == if neg then 0 - value else value
  {
  }

  /** Where neither a blank nor a sign nor a digit stands, there is no number: 0. */
  lemma NoNumber(s: bytes, p: nat)
    requires var c := At(s, p); !Blank(c) && c != '-' && c != '+' && !IsDigit(c)
    ensures StrToUl(s, p) == 0
  {
    SkipsBlanks(s, p, 0);
  }

  predicate PassesGate(s: bytes, p: nat) {
    DecodedLength(s, p, ParamLength(s, p)) == MAX_HASH_LEN
  }

  /** What an announce line asks for. */
  function Parse(line: bytes): Verdict {
    hide Find;
    var hash, peerid, port := After(line, "info_hash="), After(line, "peer_id="), After(line, "port=");
    if hash.None? || peerid.None? || port.None? then MissingParameter
    else if !PassesGate(line, hash.value) || !PassesGate(line, peerid.value) then OutOfBounds
    else
      Accepted(Params(
        StrToUl(line, port.value),
        EventAt(line, After(line, "event=")),
        ClampNumwant(NumberAt(line, After(line, "numwant="))),
        NumberAt(line, After(line, "left=")),
        Find(line, "compact=1").Some?,
        Find(line, "no_peer_id=1").Some?))
  }

  /** Behind the name stands a number in digits and then something else. */
  predicate Stands(line: bytes, name: bytes, digits: bytes) {
    && |digits| >= 1 && AllDigits(digits)
    && After(line, name).Some?
    && IsAt(line, After(line, name).value, digits) && !IsDigit(At(line, After(line, name).value + |digits|))
  }

  /** The event as its three letters say it. */
  predicate MeansEvent(line: bytes, e: Event) {
    match After(line, "event=")
    case None => e == NoEvent
    case Some(p) =>
      var abc := [At(line, p), At(line, p + 1), At(line, p + 2)];
      && (e == Started <==> abc == "sta" || abc == "coa")
      && (e == Stopped <==> abc == "sto" || abc == "coo")
      && (e == Completed <==> abc == "stm" || abc == "com")
  }

  /** The numbers, where they are written in digits and fit an int. */
  ghost predicate MeansNumbers(line: bytes, p: Params) {
    && (forall d :: Stands(line, "port=", d) && DecValue(d) <= INT_MAX ==> p.port == DecValue(d))
    && (forall d :: Stands(line, "left=", d) && DecValue(d) <= INT_MAX ==> p.left == DecValue(d))
    && (After(line, "left=").None? ==> p.left == 0)
    && (forall d :: Stands(line, "numwant=", d) && DecValue(d) <= INT_MAX ==>
          p.numwant == if 1 <= DecValue(d) <= MAXPEERS_SENT then DecValue(d) else MAXPEERS_SENT)
    && (After(line, "numwant=").None? ==> p.numwant == MAXPEERS_SENT)
  }

  ghost predicate MeansFlags(line: bytes, p: Params) {
    && (p.compact <==> exists k :: IsAt(line, k, "compact=1"))
    && (p.noPeerId <==> exists k :: IsAt(line, k, "no_peer_id=1"))
  }

  /** When a line is refused, and what it says when it is not. */
  ghost predicate MeansVerdict(line: bytes, v: Verdict) {
    hide Find, MeansEvent, MeansNumbers, MeansFlags;
    var hash, peerid, port := After(line, "info_hash="), After(line, "peer_id="), After(line, "port=");
    && (v == MissingParameter <==> hash.None? || peerid.None? || port.None?)
    && (v != MissingParameter ==>
          (v == OutOfBounds <==> !PassesGate(line, hash.value) || !PassesGate(line, peerid.value)))
    && (v.Accepted? ==>
          MeansEvent(line, v.params.event) && MeansNumbers(line, v.params) && MeansFlags(line, v.params))
  }

  lemma FlagFound(line: bytes, w: bytes)
    ensures Find(line, w).Some? <==> exists k :: IsAt(line, k, w)
  {
    hide Find;
    var f := Find(line, w);
    if f.None? {
      assert forall k :: 0 <= k < |line| + 1 ==> !IsAt(line, k, w);
    } else {
      assert IsAt(line, f.value, w);
    }
  }

  lemma NumbersMean(line: bytes, p: Params)
    requires Parse(line) == Accepted(p)
    ensures MeansNumbers(line, p)
  {
    hide After, StrToUl, PassesGate, EventAt, IsAt, DecValue;
    forall name, d | Stands(line, name, d) && DecValue(d) <= INT_MAX
      ensures StrToUl(line, After(line, name).value) == DecValue(d)
    {
      NumberStands(line, After(line, name).value, d);
    }
  }

  lemma ParseVerdict(line: bytes)
    ensures MeansVerdict(line, Parse(line))
  {
    hide After, StrToUl, PassesGate, EventAt, ClampNumwant, NumberAt, MeansEvent, MeansNumbers, MeansFlags;
    if Parse(line).Accepted? {
      ParseMeans(line, Parse(line).params);
    }
  }

  /** What an accepted announce is understood to say. */
  lemma ParseMeans(line: bytes, p: Params)
    requires Parse(line) == Accepted(p)
    ensures MeansEvent(line, p.event) && MeansNumbers(line, p) && MeansFlags(line, p)
  {
    hide After, StrToUl, PassesGate, EventAt, IsAt, ClampNumwant, NumberAt, MeansNumbers;
    FlagFound(line, "compact=1");
    FlagFound(line, "no_peer_id=1");
    NumbersMean(line, p);
    if After(line, "event=").Some? {
      EventLetters(line, After(line, "event=").value);
    } else {
      NoEventAt(line);
    }
  }

  lemma NoEventAt(line: bytes)
    ensures EventAt(line, None) == NoEvent
  {
  }

  /** A parameter in a zeroed field of 61 bytes. */
  function Field(text: bytes): (f: bytes)
    requires |text| < FIELD
    ensures |f| == FIELD
  {
    text + seq(FIELD - |text|, i => '\0')
  }

  lemma FieldText(text: cstr)
    requires |text| < FIELD
    ensures CText(Field(text)) == text && Terminated(Field(text))
  {
    StrLenIs(Field(text), |text|);
  }

  /** strncpy of a parameter into a zeroed field. */
  method CopyParam(field: array<byte>, line: cstr, p: nat)
    requires field.Length == FIELD && field[..] == seq(FIELD, i => '\0')
    requires p <= |line| && PassesGate(line, p)
    modifies field
    ensures |Param(line, p)| < FIELD && field[..] == Field(Param(line, p))
  {
    GateBound(line, p);
    var length := HttpParamLength(line, p);
    forall k | 0 <= k < length {
      field[k] := line[p + k];
    }
  }

  /** The two byte fields hold the parameters of the line. */
  predicate Filled(line: cstr, info_hash: bytes, peer_id: bytes) {
    var hash, peerid := After(line, "info_hash="), After(line, "peer_id=");
    && hash.Some? && |Param(line, hash.value)| < FIELD && info_hash == Field(Param(line, hash.value))
    && peerid.Some? && |Param(line, peerid.value)| < FIELD && peer_id == Field(Param(line, peerid.value))
  }

  /** The announce branch of parseSocket on the line that ends at the first space. */
  method ParseAnnounce(line: cstr, info_hash: array<byte>, peer_id: array<byte>) returns (v: Verdict)
    requires info_hash != peer_id && info_hash.Length == peer_id.Length == FIELD
    requires info_hash[..] == peer_id[..] == seq(FIELD, i => '\0')
    modifies info_hash, peer_id
    ensures v == Parse(line)
    ensures MeansVerdict(line, v)
    ensures v.Accepted? ==> Filled(line, info_hash[..], peer_id[..])
    ensures !v.Accepted? ==> info_hash[..] == peer_id[..] == seq(FIELD, i => '\0')
  {
    hide After, Find, DecodedLength, ParamLength, StrToUl, Param, Field, EventAt, ClampNumwant, NumberAt, MeansVerdict;
    ParseVerdict(line);
    var hash := TextAfter(line, "info_hash=");
    var peerid := TextAfter(line, "peer_id=");
    var port := TextAfter(line, "port=");
    var event := TextAfter(line, "event=");
    var numwant := TextAfter(line, "numwant=");
    var left := TextAfter(line, "left=");
    if hash.None? || peerid.None? || port.None? {
      return MissingParameter;
    }
    var compact := StrStr(line, "compact=1");
    var no_peer_id := StrStr(line, "no_peer_id=1");
    var hash_len := HttpParamLength(line, hash.value);
    var peerid_len := HttpParamLength(line, peerid.value);
    var hash_decoded := DecodedStrlen(line, hash.value, hash_len);
    var peerid_decoded := DecodedStrlen(line, peerid.value, peerid_len);
    if hash_decoded != MAX_HASH_LEN || peerid_decoded != MAX_HASH_LEN {
      return OutOfBounds;
    }
    CopyParam(info_hash, line, hash.value);
    CopyParam(peer_id, line, peerid.value);
    return Accepted(Params(
      StrToUl(line, port.value),
      EventAt(line, event),
      ClampNumwant(NumberAt(line, numwant)),
      NumberAt(line, left),
      compact.Some?,
      no_peer_id.Some?));
  }

  // ---------------------------------------------------------------------------------------
  // parseSocket
  // ---------------------------------------------------------------------------------------

  datatype Outcome =
    | Erroneous
    | NotHttp
    | OtherPage
    | NoPeerName
    | Unterminated
    | Announced(verdict: Verdict)
    | ScrapeGlobal
    | ScrapeOutOfBounds
    | ScrapeTorrent(key: bytes)

  predicate StartsWith(s: bytes, w: bytes) {
    IsAt(s, 0, w)
  }

  /** The line a method name is followed by: up to the first space, if there is one. */
  function LineOf(rest: cstr): Option<cstr> {
    match Find(rest, " ")
    case None => None
    case Some(c) => Some(rest[..c])
  }

  function ScrapeOf(line: cstr): (o: Outcome)
    ensures !o.Announced?
  {
    match After(line, "info_hash=")
    case None => ScrapeGlobal
    case Some(p) =>
      if !PassesGate(line, p) then ScrapeOutOfBounds else
      GateBound(line, p);
      FieldText(Param(line, p));
      ScrapeTorrent(HexEncode(HashBytes(Field(Param(line, p)))))
  }

  /** What the text of a request is found to be. */
  function Dispatch(text: cstr, peerKnown: bool): Outcome {
    if !StartsWith(text, "GET /") then NotHttp
    else if StartsWith(text[5..], "announce") then
      if !peerKnown then NoPeerName else
      match LineOf(text[13..])
      case None => Unterminated
      case Some(line) => Announced(Parse(line))
    else if StartsWith(text[5..], "scrape") then
      match LineOf(text[11..])
      case None => Unterminated
      case Some(line) => ScrapeOf(line)
    else OtherPage
  }

  /** The start of an announce whose line has not ended yet. */
  predicate Unfinished(text: cstr) {
    IsAt(text, 0, "GET /announce") && forall k :: 13 <= k < |text| ==> text[k] != ' '
  }

  lemma UnfinishedWaits(text: cstr)
    requires Unfinished(text)
    ensures Dispatch(text, true) == Unterminated
  {
    var rest := text[5..];
    assert "GET /announce" == "GET /" + "announce";
    IsAtConcat(text, 0, "GET /", "announce");
    forall k | 0 <= k < 8 ensures rest[k] == "announce"[k] {
      IsAtByte(text, 5, "announce", k);
    }
    var line := text[13..];
    forall k ensures !IsAt(line, k, " ") {
      if IsAt(line, k, " ") {
        IsAtByte(line, k, " ", 0);
      }
    }
    FindIs(line, " ", None);
  }

  /** Requests that may still become complete are left alone until the client has had its turns. */
  predicate Waits(o: Outcome) {
    || o == Unterminated
    || o == ScrapeOutOfBounds
    || (o.Announced? && !o.verdict.Accepted?)
  }

  /** The byte fields after an accepted announce. */
  predicate FilledBy(text: cstr, info_hash: bytes, peer_id: bytes) {
    |text| >= 13 && LineOf(text[13..]).Some? && Filled(LineOf(text[13..]).value, info_hash, peer_id)
  }

  method ReadLine(rest: cstr) returns (line: Option<cstr>)
    ensures line == LineOf(rest)
  {
    hide Find, StrLen;
    var c := CharIndex(rest, ' ');
    WholeText(rest);
    forall k ensures IsAt(rest, k, " ") <==> 0 <= k < |rest| && rest[k] == ' ' {
      if IsAt(rest, k, " ") {
        IsAtByte(rest, k, " ", 0);
      }
    }
    if c == -1 {
      FindIs(rest, " ", None);
      return None;
    }
    FindIs(rest, " ", Some(c));
    return Some(rest[..c]);
  }

  lemma WholeText(s: cstr)
    ensures StrLen(s) == |s| && CText(s) == s
  {
    StrLenIs(s, |s|);
  }

  /** The hash of a scrape goes through a 61-byte buffer of its own; unused bytes are taken as NUL. */
  method ScrapeLine(line: cstr) returns (o: Outcome)
    ensures o == ScrapeOf(line)
  {
    hide After, Find, DecodedLength, ParamLength, Param, Field, HexEncode, UrlDecode, HashBytes;
    var hash := TextAfter(line, "info_hash=");
    if hash.None? {
      return ScrapeGlobal;
    }
    var hash_len := HttpParamLength(line, hash.value);
    var decoded := DecodedStrlen(line, hash.value, hash_len);
    if decoded != MAX_HASH_LEN {
      return ScrapeOutOfBounds;
    }
    var hashbuf := new byte[FIELD](_ => '\0');
    CopyParam(hashbuf, line, hash.value);
    FieldText(Param(line, hash.value));
    var hashlen := TorrentKey(hashbuf);
    return ScrapeTorrent(hashbuf[..MAX_HEXENC_HASH_LEN]);
  }

  /**
    parseSocket on the bytes recv has peeked at. `handled` says that the client is to be
    closed: the request was answered, or the client has had all its turns.
   */
  method ParseSocket(data: bytes, recv_iter: int, peerKnown: bool, info_hash: array<byte>, peer_id: array<byte>)
    returns (o: Outcome, handled: bool)
    requires |data| <= 1023
    requires info_hash != peer_id && info_hash.Length == peer_id.Length == FIELD
    requires info_hash[..] == peer_id[..] == seq(FIELD, i => '\0')
    modifies info_hash, peer_id
    ensures o == if |data| == 0 || |data| == 1023 then Erroneous else Dispatch(CText(data), peerKnown)
    ensures !handled <==>
      && recv_iter < MAX_RECV_ITER
      && o in {Unterminated, ScrapeOutOfBounds, Announced(MissingParameter), Announced(OutOfBounds)}
    ensures 0 < |data| < 1023 && Unfinished(CText(data)) && peerKnown ==> o == Unterminated
    ensures o.Announced? && o.verdict.Accepted? ==> FilledBy(CText(data), info_hash[..], peer_id[..])
  {
    hide Parse, Filled, ScrapeOf, StrLen, LineOf, IsAt, Unfinished, MeansEvent, MeansNumbers, MeansFlags;
    if |data| == 0 || |data| == 1023 {
      return Erroneous, true;
    }
    var text := CText(data);
    PrefixLengths(text);
    if Unfinished(text) {
      UnfinishedWaits(text);
    }
    if !StartsWith(text, "GET /") {
      o := NotHttp;
    } else if StartsWith(text[5..], "announce") {
      if !peerKnown {
        o := NoPeerName;
      } else {
        var line := ReadLine(text[13..]);
        if line.None? {
          o := Unterminated;
        } else {
          var verdict := ParseAnnounce(line.value, info_hash, peer_id);
          o := Announced(verdict);
        }
      }
    } else if StartsWith(text[5..], "scrape") {
      var line := ReadLine(text[11..]);
      if line.None? {
        o := Unterminated;
      } else {
        o := ScrapeLine(line.value);
      }
    } else {
      o := OtherPage;
    }
    handled := !Waits(o) || recv_iter >= MAX_RECV_ITER;
  }

  lemma PrefixLengths(text: bytes)
    ensures StartsWith(text, "GET /") ==> |text| >= 5
    ensures |text| >= 5 && StartsWith(text[5..], "announce") ==> |text| >= 13
    ensures |text| >= 5 && StartsWith(text[5..], "scrape") ==> |text| >= 11
  {
  }
}
