/**
  parse_url_destructive (getpeers/net.c): a URL is taken apart in place, by writing NUL over
  its delimiters. Section 3 of RFC 3986 has the components, not the way they are searched for:
  a colon or an `@` counts wherever it stands behind "://".
 */
module Url {
  import opened CStrings
  import opened Encoding
  import opened NetText

  datatype Components = Components(protocol: cstr, credentials: Option<cstr>, host: cstr, port: Option<cstr>,
      path: cstr)

  /** `Fault`: there is a colon but no slash behind it, and the search result NULL is written through. */
  datatype Outcome =
    | Parsed(url: Components)
    | NoProtocol
    | NoPath(protocol: cstr, credentials: Option<cstr>, host: cstr)
    | Fault

  // ---------------------------------------------------------------------------------------
  // Printing and splitting
  // ---------------------------------------------------------------------------------------

  /** From the host on. */
  function Tail(u: Components): cstr {
    match u.port
    case Some(port) => u.host + [':'] + (port + ['/'] + u.path)
    case None => u.host + ['/'] + u.path
  }

  function Print(u: Components): cstr {
    match u.credentials
    case Some(c) => u.protocol + "://" + (c + ['@'] + Tail(u))
    case None => u.protocol + "://" + Tail(u)
  }

  /** The text before and behind the first occurrence of a word. */
  function Cut(s: cstr, w: bytes): Option<(cstr, cstr)> {
    match Find(s, w)
    case None => None
    case Some(i) => Some((s[..i], s[i + |w|..]))
  }

  /** What is read out of a URL. */
  function Split(s: cstr): (o: Outcome) {
    match Cut(s, "://")
    case None => NoProtocol
    case Some((protocol, rest)) =>
      match Cut(rest, ['@'])
      case None => Authority(protocol, None, rest)
      case Some((credentials, t)) => Authority(protocol, Some(credentials), t)
  }

  /** Host, port and path. The colon is looked for in the path, too. */
  function Authority(protocol: cstr, credentials: Option<cstr>, t: cstr): (o: Outcome)
    ensures o.Parsed? ==> o.url.protocol == protocol && o.url.credentials == credentials
  {
    match Cut(t, ['/'])
    case None => NoPath(protocol, credentials, t)
    case Some((host, path)) =>
      match Cut(t, [':'])
      case None => Parsed(Components(protocol, credentials, host, None, path))
      case Some((before, rest)) =>
        match Cut(rest, ['/'])
        case None => Fault
        case Some((port, behind)) => Parsed(Components(protocol, credentials, before, Some(port), behind))
  }

  // ---------------------------------------------------------------------------------------
  // Cutting
  // ---------------------------------------------------------------------------------------

  lemma CutJoins(s: cstr, w: bytes)
    requires Cut(s, w).Some?
    ensures s == Cut(s, w).value.0 + w + Cut(s, w).value.1
  {
    var i := Find(s, w).value;
    IsAtSlice(s, i, w);
    assert s == s[..i] + s[i..i + |w|] + s[i + |w|..];
  }

  lemma CharAt(s: bytes, c: byte, k: int)
    ensures IsAt(s, k, [c]) <==> 0 <= k < |s| && s[k] == c
  {
    if IsAt(s, k, [c]) {
      IsAtByte(s, k, [c], 0);
    }
  }

  lemma CutsAt(s: cstr, w: bytes, x: bytes, y: bytes)
    requires |w| > 0 && s == x + w + y
    ensures Cut(s, w) == Some((x, y)) <==> Find(s, w) == Some(|x|)
  {
    hide IsAt, IsFirst, Find;
    if Find(s, w) == Some(|x|) {
      assert s[..|x|] == x && s[|x| + |w|..] == y;
    }
  }

  lemma CutNone(s: cstr, c: byte)
    ensures Cut(s, [c]) == None <==> c !in s
  {
    hide IsAt, Find;
    forall k ensures IsAt(s, k, [c]) <==> 0 <= k < |s| && s[k] == c {
      CharAt(s, c, k);
    }
    if c in s {
      var k :| 0 <= k < |s| && s[k] == c;
      assert IsAt(s, k, [c]);
    }
  }

  /** A character cuts where it was put exactly when it does not occur before. */
  lemma CutChar(x: cstr, c: byte, y: cstr)
    requires c != '\0'
    ensures Cut(x + [c] + y, [c]) == Some((x, y)) <==> c !in x
    ensures Cut(x + [c] + y, [c]).Some?
  {
    var s := x + [c] + y;
    assert s[|x|] == c;
    CutNone(s, c);
    CutsAt(s, [c], x, y);
    hide Cut, IsAt, Find;
    forall k ensures IsAt(s, k, [c]) <==> 0 <= k < |s| && s[k] == c {
      CharAt(s, c, k);
    }
    if c !in x {
      FindIs(s, [c], Some(|x|));
    } else {
      var k :| 0 <= k < |x| && x[k] == c;
      assert s[k] == c && IsAt(s, k, [c]);
    }
  }

  lemma MarkIn(x: bytes, y: bytes, k: nat)
    requires k < |x|
    ensures IsAt(x + "://" + y, k, "://") <==> IsAt(x, k, "://")
  {
    var s, w := x + "://" + y, "://";
    if k + 3 <= |x| {
      assert s[k] == x[k] && s[k + 1] == x[k + 1] && s[k + 2] == x[k + 2];
    } else if k + 2 == |x| {
      assert s[k + 2] == ':' && w[2] == '/';
    } else {
      assert s[k + 1] == ':' && w[1] == '/';
    }
  }

  /** "://" cannot begin inside another one: it cuts where it was put exactly when it does not occur before. */
  lemma CutMark(x: cstr, y: cstr)
    ensures Cut(x + "://" + y, "://") == Some((x, y)) <==> Cut(x, "://") == None
    ensures Cut(x + "://" + y, "://").Some?
  {
    var s: cstr, w: bytes := x + "://" + y, "://";
    assert IsAt(s, |x|, w);
    forall k: nat | k < |x| ensures IsAt(s, k, w) <==> IsAt(x, k, w) {
      MarkIn(x, y, k);
    }
    CutsAt(s, w, x, y);
    hide IsAt, Find;
    if Find(x, w) == None {
      FindIs(s, w, Some(|x|));
    } else {
      assert IsAt(x, Find(x, w).value, w);
    }
  }

  // ---------------------------------------------------------------------------------------
  // Printing and splitting undo each other
  // ---------------------------------------------------------------------------------------

  /** No component contains a delimiter that is looked for before its own end. */
  predicate Separable(u: Components) {
    && Cut(u.protocol, "://") == None
    && '@' !in (if u.credentials.Some? then u.credentials.value else Tail(u))
    && SeparableTail(u)
  }

  predicate SeparableTail(u: Components) {
    match u.port
    case Some(port) => ':' !in u.host && '/' !in port
    case None => '/' !in u.host && ':' !in Tail(u)
  }

  lemma TailReadsBack(u: Components)
    ensures Authority(u.protocol, u.credentials, Tail(u)) == Parsed(u) <==> SeparableTail(u)
  {
    hide Cut;
    CutNone(Tail(u), '/');
    match u.port {
      case Some(port) => {
        var rest: cstr := port + ['/'] + u.path;
        CutChar(u.host, ':', rest);
        CutChar(port, '/', u.path);
        assert Tail(u)[|u.host| + 1 + |port|] == '/';
        var cut := Cut(Tail(u), [':']).value;
        CutJoins(Tail(u), [':']);
        if cut.0 == u.host {
          SamePrefix(u.host, [':'], rest, cut.1);
        }
      }
      case None => {
        CutChar(u.host, '/', u.path);
        CutNone(Tail(u), ':');
      }
    }
  }

  lemma SamePrefix(x: bytes, w: bytes, y: bytes, z: bytes)
    requires x + w + y == x + w + z
    ensures y == z
  {
    assert y == (x + w + y)[|x| + |w|..];
    assert z == (x + w + z)[|x| + |w|..];
  }

  /** Splitting off what stands before the host. */
  lemma HeadReadsBack(u: Components, rest: cstr)
    requires rest == match u.credentials case Some(c) => c + ['@'] + Tail(u) case None => Tail(u)
    ensures (match Cut(rest, ['@'])
             case None => u.credentials == None && Authority(u.protocol, None, rest) == Parsed(u)
             case Some((c, t)) => u.credentials == Some(c) && Authority(u.protocol, Some(c), t) == Parsed(u))
      <==> '@' !in (if u.credentials.Some? then u.credentials.value else Tail(u)) && SeparableTail(u)
  {
    TailReadsBack(u);
    hide Cut, Authority, Tail, SeparableTail;
    match u.credentials {
      case Some(c) => {
        CutChar(c, '@', Tail(u));
        CutJoins(rest, ['@']);
        if Cut(rest, ['@']).value.0 == c {
          SamePrefix(c, ['@'], Tail(u), Cut(rest, ['@']).value.1);
        }
      }
      case None => CutNone(rest, '@');
    }
  }

  /**
    A printed URL reads back as its components exactly when no component contains a delimiter
    that is looked for before its own end.
   */
  lemma PrintReadsBack(u: Components)
    ensures Split(Print(u)) == Parsed(u) <==> Separable(u)
  {
    hide Cut, Authority, Tail, SeparableTail;
    var rest: cstr := match u.credentials case Some(c) => c + ['@'] + Tail(u) case None => Tail(u);
    assert Print(u) == u.protocol + "://" + rest;
    CutMark(u.protocol, rest);
    CutJoins(Print(u), "://");
    HeadReadsBack(u, rest);
    if Cut(Print(u), "://").value.0 == u.protocol {
      SamePrefix(u.protocol, "://", rest, Cut(Print(u), "://").value.1);
    }
  }

  lemma AuthorityPrints(protocol: cstr, credentials: Option<cstr>, t: cstr)
    requires Authority(protocol, credentials, t).Parsed?
    ensures Tail(Authority(protocol, credentials, t).url) == t
  {
    hide Cut;
    CutJoins(t, ['/']);
    if Cut(t, [':']).Some? {
      CutJoins(t, [':']);
      CutJoins(Cut(t, [':']).value.1, ['/']);
    }
  }

  /** Conversely, what is read out of a text prints as that text: nothing is lost. */
  lemma SplitPrints(s: cstr)
    requires Split(s).Parsed?
    ensures Print(Split(s).url) == s
  {
    hide Cut, Tail, Authority;
    CutJoins(s, "://");
    var (protocol, rest) := Cut(s, "://").value;
    if Cut(rest, ['@']).Some? {
      CutJoins(rest, ['@']);
      AuthorityPrints(protocol, Some(Cut(rest, ['@']).value.0), Cut(rest, ['@']).value.1);
    } else {
      AuthorityPrints(protocol, None, rest);
    }
  }

  /** NULL is written through exactly when there is a slash and a colon, but no slash behind the first colon. */
  lemma Faults(protocol: cstr, credentials: Option<cstr>, t: cstr)
    ensures Authority(protocol, credentials, t).Fault? <==>
      '/' in t && exists i :: 0 <= i < |t| && t[i] == ':' && ':' !in t[..i] && '/' !in t[i + 1..]
  {
    hide Cut;
    CutNone(t, '/');
    CutNone(t, ':');
    forall i | 0 <= i < |t| && t[i] == ':' && ':' !in t[..i]
      ensures Cut(t, [':']) == Some((t[..i], t[i + 1..]))
    {
      assert t == t[..i] + [':'] + t[i + 1..];
      CutChar(t[..i], ':', t[i + 1..]);
    }
    if Cut(t, [':']).Some? {
      var (x, y) := Cut(t, [':']).value;
      FirstColon(t, x, y);
      CutNone(y, '/');
    }
  }

  lemma FirstColon(t: cstr, x: cstr, y: cstr)
    requires Cut(t, [':']) == Some((x, y))
    ensures |x| < |t| && t[|x|] == ':' && ':' !in t[..|x|] && t[|x| + 1..] == y
  {
    CutJoins(t, [':']);
    CutChar(x, ':', y);
    assert t[..|x|] == x;
  }

  /** A colon in the path and no slash behind it: for example http://a/b:c. */
  lemma ColonInPath(protocol: cstr, x: cstr, y: cstr)
    requires Cut(protocol, "://") == None && '@' !in x && '@' !in y
    requires '/' in x && ':' !in x && '/' !in y
    ensures Split(protocol + "://" + (x + [':'] + y)) == Fault
  {
    hide Cut;
    var t := x + [':'] + y;
    CutMark(protocol, t);
    CutNone(t, '@');
    CutNone(t, '/');
    CutChar(x, ':', y);
    CutNone(y, '/');
    var k :| 0 <= k < |x| && x[k] == '/';
    assert t[k] == '/';
  }

  lemma FaultsAtPathColon()
    ensures Split("http" + "://" + ("a/b" + [':'] + "c")) == Fault
  {
    hide Split, Cut;
    PlainProtocol();
    var x: bytes := "a/b";
    assert x[0] == 'a' && x[1] == '/' && x[2] == 'b';
    ColonInPath("http", x, "c");
  }

  lemma PlainProtocol()
    ensures Cut("http", "://") == None
  {
    var s: bytes := "http";
    assert forall k :: 0 <= k < |s| ==> s[k] != ':';
    forall k ensures !IsAt(s, k, "://") {
      if IsAt(s, k, "://") {
        IsAtByte(s, k, "://", 0);
      }
    }
  }

  /** Behind "://" and what precedes the host there must be a slash, or the status is -1. */
  lemma NeedsSlash(protocol: cstr, credentials: Option<cstr>, t: cstr)
    ensures Authority(protocol, credentials, t).NoPath? <==> '/' !in t
  {
    hide Cut;
    CutNone(t, '/');
  }

  // ---------------------------------------------------------------------------------------
  // In place
  // ---------------------------------------------------------------------------------------

  /** URL_COMPONENTS: pointers into the buffer, or NULL. */
  datatype Pointers = Pointers(status: int, protocol: Option<nat>, credentials: Option<nat>, host: Option<nat>,
      port: Option<nat>, path: Option<nat>)

  /** A pointer to position `pos` is the C string `text`. */
  predicate Stands(a: bytes, pos: nat, text: cstr) {
    pos + |text| < |a| && IsAt(a, pos, text) && a[pos + |text|] == '\0'
  }

  predicate Shows(a: bytes, pos: Option<nat>, text: Option<cstr>) {
    match text
    case None => pos == None
    case Some(t) => pos.Some? && Stands(a, pos.value, t)
  }

  /** The result and the buffer behind it, against what should be read out. */
  predicate Reads(a: bytes, rv: Pointers, o: Outcome) {
    match o
    case NoProtocol => rv == Pointers(-1, None, None, None, None, None)
    case NoPath(protocol, credentials, host) =>
      && rv.status == -1 && rv.port == None && rv.path == None
      && Shows(a, rv.protocol, Some(protocol)) && Shows(a, rv.credentials, credentials) && Shows(a, rv.host, Some(host))
    case Parsed(u) =>
      && rv.status == 0
      && Shows(a, rv.protocol, Some(u.protocol)) && Shows(a, rv.credentials, u.credentials)
      && Shows(a, rv.host, Some(u.host)) && Shows(a, rv.port, u.port) && Shows(a, rv.path, Some(u.path))
    case Fault => true
  }

  lemma WholeStands(a: bytes)
    requires Terminated(a)
    ensures Stands(a, 0, CText(a))
  {
    hide StrLen;
  }

  /** Writing NUL over a delimiter leaves the text before it and the text behind it. */
  lemma Divides(a: bytes, pos: nat, x: cstr, w: bytes, y: cstr)
    requires |w| > 0 && (forall k :: 0 <= k < |w| ==> w[k] != '\0') && Stands(a, pos, x + w + y)
    ensures Stands(a[pos + |x| := '\0'], pos, x) && Stands(a[pos + |x| := '\0'], pos + |x| + |w|, y)
  {
    IsAtConcat(a, pos, x + w, y);
    IsAtConcat(a, pos, x, w);
  }

  /** A pointer shows a text that ends before position `end`. */
  predicate Before(a: bytes, pos: Option<nat>, text: Option<cstr>, end: nat) {
    Shows(a, pos, text) && (text.Some? ==> pos.value + |text.value| < end)
  }

  /** Such a text stays when something is written at `end` or behind. */
  lemma StaysBefore(a: bytes, at: nat, pos: Option<nat>, text: Option<cstr>, end: nat)
    requires at < |a| && end <= at && Before(a, pos, text, end)
    ensures var b := a[at := '\0']; forall later :: later >= end ==> Before(b, pos, text, later)
  {
  }

  method StrChr(url: array<byte>, pos: nat, c: byte, ghost text: cstr) returns (r: Option<nat>)
    requires Stands(url[..], pos, text) && c != '\0'
    ensures r == match Cut(text, [c]) case None => None case Some((x, y)) => Some(pos + |x|)
  {
    hide Cut;
    var i := pos;
    while url[i] != '\0'
      invariant pos <= i <= pos + |text|
      invariant c !in text[..i - pos]
      invariant i < pos + |text| ==> url[i] == text[i - pos]
      decreases pos + |text| - i
    {
      ghost var k := i - pos;
      assert url[i] == text[k];
      assert text[..k + 1] == text[..k] + [text[k]];
      if url[i] == c {
        assert text == text[..k] + [c] + text[k + 1..];
        CutChar(text[..k], c, text[k + 1..]);
        return Some(i);
      }
      i := i + 1;
    }
    assert text[..i - pos] == text;
    CutNone(text, c);
    return None;
  }

  /** `*url=0;` at the delimiter, which cuts the text that stands at `pos`. */
  method Divide(url: array<byte>, ghost pos: nat, at: nat, ghost w: bytes, ghost text: cstr)
    requires Stands(url[..], pos, text) && Cut(text, w).Some? && at == pos + |Cut(text, w).value.0|
    requires |w| > 0 && forall k :: 0 <= k < |w| ==> w[k] != '\0'
    requires at < url.Length
    modifies url
    ensures url[..] == old(url[..])[at := '\0']
    ensures Stands(url[..], pos, Cut(text, w).value.0) && Stands(url[..], at + |w|, Cut(text, w).value.1)
  {
    hide Cut, Stands;
    CutJoins(text, w);
    Divides(url[..], pos, Cut(text, w).value.0, w, Cut(text, w).value.1);
    url[at] := '\0';
  }

  /** The part behind credentials: host, port if there is a colon, path if there is a slash. */
  method ParseAuthority(url: array<byte>, pos: nat, found: Pointers, ghost protocol: cstr,
      ghost credentials: Option<cstr>, ghost t: cstr)
    returns (rv: Pointers, fault: bool)
    requires Stands(url[..], pos, t)
    requires found.status == 0 && found.port == None && found.path == None
    requires Before(url[..], found.protocol, Some(protocol), pos)
    requires Before(url[..], found.credentials, credentials, pos)
    modifies url
    ensures fault <==> Authority(protocol, credentials, t).Fault?
    ensures Reads(url[..], rv, Authority(protocol, credentials, t))
  {
    hide Cut, Stands, Before;
    BeforeShows(url[..], found.protocol, Some(protocol), pos);
    BeforeShows(url[..], found.credentials, credentials, pos);
    rv := found.(host := Some(pos));
    fault := false;
    NothingShown(url[..], pos);
    var slash := StrChr(url, pos, '/', t);
    if slash.None? {
      rv := rv.(status := -1);
      return;
    }
    var colon := StrChr(url, pos, ':', t);
    if colon.None? {
      CutOff(url, pos, slash.value, t, found, protocol, credentials, None, None, pos);
      BeforeShows(url[..], found.protocol, Some(protocol), pos);
      BeforeShows(url[..], found.credentials, credentials, pos);
      rv := rv.(path := Some(slash.value + 1));
      return;
    }
    ghost var host, rest := Cut(t, [':']).value.0, Cut(t, [':']).value.1;
    CutOff(url, pos, colon.value, t, found, protocol, credentials, None, None, pos, ':');
    StandsBefore(url[..], pos, host);
    var cur := colon.value + 1;
    rv := rv.(port := Some(cur));
    slash := StrChr(url, cur, '/', rest);
    if slash.None? {
      fault := true;
      return;
    }
    CutOff(url, cur, slash.value, rest, found, protocol, credentials, Some(pos), Some(host), cur);
    BeforeShows(url[..], found.protocol, Some(protocol), cur);
    BeforeShows(url[..], found.credentials, credentials, cur);
    BeforeShows(url[..], Some(pos), Some(host), cur);
    rv := rv.(path := Some(slash.value + 1));
  }

  lemma BeforeShows(a: bytes, pos: Option<nat>, text: Option<cstr>, end: nat)
    requires Before(a, pos, text, end)
    ensures Shows(a, pos, text)
  {
  }

  lemma StandsBefore(a: bytes, pos: nat, text: cstr)
    requires Stands(a, pos, text)
    ensures Before(a, Some(pos), Some(text), pos + |text| + 1)
  {
  }

  /** Writes NUL over a delimiter; what was found before it stays. */
  method CutOff(url: array<byte>, ghost pos: nat, at: nat, ghost text: cstr, ghost found: Pointers,
                   ghost protocol: cstr, ghost credentials: Option<cstr>,
                   ghost hostAt: Option<nat>, ghost host: Option<cstr>,
                   ghost end: nat, ghost delimiter: byte := '/')
    requires Stands(url[..], pos, text) && Cut(text, [delimiter]).Some? && at == pos + |Cut(text, [delimiter]).value.0|
    requires delimiter != '\0' && end <= pos
    requires Before(url[..], found.protocol, Some(protocol), end)
    requires Before(url[..], found.credentials, credentials, end)
    requires Before(url[..], hostAt, host, end)
    modifies url
    ensures Stands(url[..], pos, Cut(text, [delimiter]).value.0)
    ensures Stands(url[..], at + 1, Cut(text, [delimiter]).value.1)
    ensures forall later :: later >= end ==> Before(url[..], found.protocol, Some(protocol), later)
    ensures forall later :: later >= end ==> Before(url[..], found.credentials, credentials, later)
    ensures forall later :: later >= end ==> Before(url[..], hostAt, host, later)
  {
    hide Cut, Stands, Before;
    CutJoins(text, [delimiter]);
    StandsInside(url[..], pos, text);
    StaysBefore(url[..], at, found.protocol, Some(protocol), end);
    StaysBefore(url[..], at, found.credentials, credentials, end);
    StaysBefore(url[..], at, hostAt, host, end);
    Divide(url, pos, at, [delimiter], text);
  }

  lemma StandsInside(a: bytes, pos: nat, text: cstr)
    requires Stands(a, pos, text)
    ensures pos + |text| < |a|
  {
  }

  /** parse_url_destructive; `fault` if it writes through NULL. */
  method ParseUrlDestructive(url: array<byte>) returns (rv: Pointers, fault: bool)
    requires Terminated(url[..])
    modifies url
    ensures fault <==> Split(old(CText(url[..]))).Fault?
    ensures Reads(url[..], rv, Split(old(CText(url[..]))))
  {
    hide Cut, Stands, CText, Terminated, Before, Authority;
    rv := Pointers(0, None, None, None, None, None);
    ghost var s := CText(url[..]);
    WholeStands(url[..]);
    StandsInside(url[..], 0, s);
    var p := StrStr(CText(url[..]), "://");
    CutIsFind(s, "://");
    if p.None? {
      return rv.(status := -1), false;
    }
    rv := rv.(protocol := Some(0));
    ghost var protocol, rest := Cut(s, "://").value.0, Cut(s, "://").value.1;
    Divide(url, 0, p.value, "://", s);
    StandsBefore(url[..], 0, protocol);
    var cur := p.value + 3;
    StandsInside(url[..], cur, rest);
    StaysLater(url[..], Some(0), Some(protocol), p.value + 1, cur);
    NothingShown(url[..], cur);
    var at := StrChr(url, cur, '@', rest);
    if at.Some? {
      rv := rv.(credentials := Some(cur));
      ghost var c := Cut(rest, ['@']).value.0;
      CutOff(url, cur, at.value, rest, rv.(credentials := None), protocol, None, None, None, cur, '@');
      StandsBefore(url[..], cur, c);
      rv, fault := ParseAuthority(url, at.value + 1, rv, protocol, Some(c), Cut(rest, ['@']).value.1);
    } else {
      rv, fault := ParseAuthority(url, cur, rv, protocol, None, rest);
    }
  }

  lemma StaysLater(a: bytes, pos: Option<nat>, text: Option<cstr>, end: nat, later: nat)
    requires Before(a, pos, text, end) && end <= later
    ensures Before(a, pos, text, later)
  {
  }

  lemma NothingShown(a: bytes, end: nat)
    ensures Before(a, None, None, end)
  {
  }

  lemma CutIsFind(s: cstr, w: bytes)
    ensures Find(s, w).None? <==> Cut(s, w).None?
    ensures Cut(s, w).Some? ==> Find(s, w) == Some(|Cut(s, w).value.0|)
  {
  }
}
