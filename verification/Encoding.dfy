/**
  The codecs of encoding.c: percent-encoding (sections 2.1 and 2.3 of RFC 3986, lower-case
  hex digits only) and the hex form of torrent hashes.
 */
module Encoding {
  import opened CStrings

  const MAX_HASH_LEN := 20
  const MAX_URLENC_HASH_LEN := 60
  const MAX_HEXENC_HASH_LEN := 40

  const HEXDICT: bytes := "0123456789abcdef"
  const UPPER: bytes := "ABCDEFGHIJKLMNOPQRSTUVWXYZ"
  const LOWER: bytes := "abcdefghijklmnopqrstuvwxyz"
  const DIGITS: bytes := "0123456789"
  const MARKS: bytes := "-_.~"
  const NONRESERVED: bytes := UPPER + LOWER + (DIGITS + MARKS)

  // ---------------------------------------------------------------------------------------
  // NUL-terminated contents
  // ---------------------------------------------------------------------------------------

  function StrLen(s: bytes): (n: nat)
    ensures n <= |s| && (n < |s| ==> s[n] == '\0')
    ensures forall k :: 0 <= k < n ==> s[k] != '\0'
  {
    if s == [] || s[0] == '\0' then 0 else 1 + StrLen(s[1..])
  }

  lemma {:induction false} StrLenIs(s: bytes, n: nat)
    requires n <= |s| && (n < |s| ==> s[n] == '\0') && forall k :: 0 <= k < n ==> s[k] != '\0'
    ensures StrLen(s) == n
  {
    if n > 0 {
      assert s[0] != '\0';
      StrLenIs(s[1..], n - 1);
    }
  }

  /** The C string at the start of a buffer. */
  function CText(s: bytes): (t: cstr) {
    s[..StrLen(s)]
  }

  predicate Terminated(s: bytes) {
    StrLen(s) < |s|
  }

  // ---------------------------------------------------------------------------------------
  // Hex digits
  // ---------------------------------------------------------------------------------------

  /** The value of a lower-case hex digit, -1 for any other character. */
  function HexVal(c: byte): (v: int)
    ensures -1 <= v < 16
  {
    if '0' <= c <= '9' then c as int - '0' as int
    else if 'a' <= c <= 'f' then c as int - 'a' as int + 10
    else -1
  }

  function HexChar(n: nat): (c: byte)
    requires n < 16
    ensures HexVal(c) == n
  {
    if n < 10 then ('0' as int + n) as char else ('a' as int + n - 10) as char
  }

  lemma HexDictAt(k: nat)
    requires k < 16
    ensures |HEXDICT| == 16 && HEXDICT[k] == HexChar(k)
  {
  }

  predicate Unreserved(c: byte) {
    'A' <= c <= 'Z' || 'a' <= c <= 'z' || '0' <= c <= '9' || c == '-' || c == '_' || c == '.' || c == '~'
  }

  lemma UpperCase(c: byte)
    ensures c in UPPER <==> 'A' <= c <= 'Z'
  {
  }

  lemma LowerCase(c: byte)
    ensures c in LOWER <==> 'a' <= c <= 'z'
  {
  }

  lemma DigitsAndMarks(c: byte)
    ensures c in DIGITS + MARKS <==> '0' <= c <= '9' || c == '-' || c == '_' || c == '.' || c == '~'
  {
  }

  /** The table of the code lists exactly the unreserved characters of RFC 3986. */
  lemma NonReserved(c: byte)
    ensures c in NONRESERVED <==> Unreserved(c)
  {
    hide UPPER, LOWER, DIGITS, MARKS;
    UpperCase(c);
    LowerCase(c);
    DigitsAndMarks(c);
  }

  lemma NonReservedText()
    ensures CText(NONRESERVED) == NONRESERVED
  {
    hide StrLen;
    StrLenIs(NONRESERVED, |NONRESERVED|);
  }

  /** charIndex: the first place of `needle` in a C string, or -1. */
  method CharIndex(hay: bytes, needle: byte) returns (r: int)
    ensures r == -1 <==> needle !in CText(hay)
    ensures r != -1 ==> 0 <= r < StrLen(hay) && hay[r] == needle
    ensures forall k :: 0 <= k < r ==> hay[k] != needle
  {
    r := 0;
    while r < |hay| && hay[r] != '\0'
      invariant 0 <= r <= StrLen(hay)
      invariant forall k :: 0 <= k < r ==> hay[k] != needle
    {
      if hay[r] == needle {
        assert CText(hay)[r] == needle;
        return;
      }
      r := r + 1;
    }
    r := -1;
  }

  // ---------------------------------------------------------------------------------------
  // Percent-decoding
  // ---------------------------------------------------------------------------------------

  /** The bytes decoded from left to right, up to the first escape that is not two hex digits. */
  datatype Decoded = Decoded(out: bytes, ok: bool)

  predicate IsEscape(s: bytes) {
    |s| >= 3 && s[0] == '%'
  }

  /** The byte two hex digits stand for. */
  function HexPair(first: byte, second: byte): Option<byte> {
    if HexVal(first) != -1 && HexVal(second) != -1
    then Some((HexVal(first) * 16 + HexVal(second)) as char) else None
  }

  function UrlDecode(s: bytes): (d: Decoded)
    ensures |d.out| <= |s| && (!d.ok ==> |d.out| + 3 <= |s|)
  {
    if s == [] then Decoded([], true)
    else if IsEscape(s) then
      match HexPair(s[1], s[2])
      case None => Decoded([], false)
      case Some(c) => Prefixed(c, UrlDecode(s[3..]))
    else Prefixed(s[0], UrlDecode(s[1..]))
  }

  function Prefixed(c: byte, d: Decoded): Decoded {
    Decoded([c] + d.out, d.ok)
  }

  /** What the buffer holds after decoding: the output, a last byte, and the old rest. */
  function Overwritten(old': bytes, out: bytes, last: byte): (r: bytes)
    requires |out| < |old'|
    ensures |r| == |old'|
  {
    out + [last] + old'[|out| + 1..]
  }

  lemma HexDictText()
    ensures |HEXDICT| == 16 && StrLen(HEXDICT) == 16 && CText(HEXDICT) == HEXDICT
  {
    hide StrLen;
    StrLenIs(HEXDICT, 16);
  }

  lemma HexDictHas(c: byte)
    ensures c in HEXDICT <==> HexVal(c) != -1
  {
    hide HEXDICT;
    HexDictText();
    if HexVal(c) != -1 {
      HexDictAt(HexVal(c));
      assert HEXDICT[HexVal(c)] == c;
    } else if c in HEXDICT {
      var k :| 0 <= k < 16 && HEXDICT[k] == c;
      HexDictAt(k);
    }
  }

  /** charIndex(hexdict, c) */
  method HexIndex(c: byte) returns (v: int)
    ensures v == HexVal(c)
  {
    hide HexVal, HEXDICT, StrLen, CText;
    HexDictText();
    HexDictHas(c);
    v := CharIndex(HEXDICT, c);
    if v != -1 {
      HexDictAt(v);
    }
  }

  lemma OverwrittenIs(old': bytes, out: bytes, last: byte, now: bytes)
    requires |out| < |old'| && |now| == |old'|
    requires forall k :: 0 <= k < |out| ==> now[k] == out[k]
    requires now[|out|] == last
    requires forall k :: |out| < k < |now| ==> now[k] == old'[k]
    ensures now == Overwritten(old', out, last)
  {
  }

  /** Both digits of an escape looked up. */
  method DecodePair(a: byte, b: byte) returns (r: Option<byte>)
    ensures r == HexPair(a, b)
  {
    hide HexVal;
    var first := HexIndex(a);
    var second := HexIndex(b);
    r := if first != -1 && second != -1 then Some((first * 16 + second) as char) else None;
  }

  /** What the decoder makes of the string from place `i` on. */
  function DecodedFrom(s: bytes, i: nat): (d: Decoded)
    requires i <= |s|
    ensures i == |s| ==> d == Decoded([], true)
    ensures |d.out| <= |s| - i
  {
    UrlDecode(s[i..])
  }

  /** An escape begins at place `i` of the string `s`. */
  predicate EscapeAt(s: bytes, i: nat) {
    i + 2 < |s| && s[i] == '%'
  }

  lemma DecodedFromStep(s: bytes, i: nat)
    requires i < |s|
    ensures DecodedFrom(s, i) ==
      if !EscapeAt(s, i) then Prefixed(s[i], DecodedFrom(s, i + 1))
      else match HexPair(s[i + 1], s[i + 2])
        case None => Decoded([], false)
        case Some(c) => Prefixed(c, DecodedFrom(s, i + 3))
  {
    hide HexPair;
    assert s[i..][1..] == s[i + 1..];
    if EscapeAt(s, i) {
      assert s[i..][3..] == s[i + 3..];
    }
  }

  /** The decoder comes by place i: no escape before it reaches over it. */
  predicate Scanned(s: bytes, i: nat, from: nat := 0)
    requires from <= |s|
    decreases |s| - from
  {
    from == i || (from < i && from < |s| && Scanned(s, i, if EscapeAt(s, from) then from + 3 else from + 1))
  }

  /** An escape that is not two lower-case hex digits. */
  predicate BadEscape(s: bytes, i: nat) {
    EscapeAt(s, i) && HexPair(s[i + 1], s[i + 2]).None?
  }

  lemma {:induction false} FailsFrom(s: bytes, from: nat)
    requires from <= |s|
    ensures !DecodedFrom(s, from).ok <==> exists i: nat :: Scanned(s, i, from) && BadEscape(s, i)
    decreases |s| - from
  {
    hide HexPair, DecodedFrom;
    if from < |s| {
      DecodedFromStep(s, from);
      if BadEscape(s, from) {
        assert Scanned(s, from, from);
      } else {
        var next := if EscapeAt(s, from) then from + 3 else from + 1;
        FailsFrom(s, next);
        forall i: nat | BadEscape(s, i) ensures Scanned(s, i, from) <==> Scanned(s, i, next) {}
      }
    }
  }

  /** Decoding fails exactly when the decoder comes by such an escape. */
  lemma DecodeFails(s: bytes)
    ensures !UrlDecode(s).ok <==> exists i: nat :: Scanned(s, i) && BadEscape(s, i)
  {
    FailsFrom(s, 0);
    assert s[0..] == s;
  }

  /** An upper-case escape is not decoded, which section 2.1 of RFC 3986 asks for: `%2F` fails. */
  lemma UpperCaseFails(tail: bytes)
    ensures !UrlDecode("%2F" + tail).ok
  {
    hide UrlDecode;
    var s: bytes := "%2F" + tail;
    assert s[0] == '%' && s[1] == '2' && s[2] == 'F';
    DecodeFails(s);
    assert Scanned(s, 0) && BadEscape(s, 0);
  }

  /** What has been written and what is still to come make up the whole result. */
  predicate SplitResult(whole: Decoded, done: bytes, rest: Decoded) {
    whole.ok == rest.ok && whole.out == done + rest.out
  }

  lemma SplitResultMoves(whole: Decoded, done: bytes, c: byte, rest: Decoded)
    requires SplitResult(whole, done, Prefixed(c, rest))
    ensures SplitResult(whole, done + [c], rest)
  {
  }

  lemma DecodeStart(was: bytes)
    requires Terminated(was)
    ensures var s := CText(was);
      && |s| == StrLen(was) && |s| < |was| && was[|s|] == '\0'
      && (forall k :: 0 <= k < |s| ==> s[k] == was[k] && was[k] != '\0')
      && SplitResult(UrlDecode(s), [], DecodedFrom(s, 0))
  {
    var s := CText(was);
    assert s[0..] == s;
  }

  /**
    destructiveURLDecode. The write cursor `c` never passes the read cursor `i`, so the
    bytes still to be read are those of the original string.
   */
  method DestructiveURLDecode(encoded: array<byte>) returns (r: int)
    requires Terminated(encoded[..])
    modifies encoded
    ensures var d := UrlDecode(old(CText(encoded[..])));
      && r == (if d.ok then |d.out| else -1)
      && |d.out| <= old(StrLen(encoded[..])) < encoded.Length
      && encoded[..] == Overwritten(old(encoded[..]), d.out, if d.ok then '\0' else '%')
  {
    hide HexPair, UrlDecode, StrLen, Overwritten, CText, Terminated, DecodedFrom, Prefixed, SplitResult;
    ghost var was := encoded[..];
    ghost var s := CText(was);
    DecodeStart(was);
    var i, c := 0, 0;
    ghost var out: bytes := [];
    while encoded[i] != '\0'
      invariant 0 <= c <= i <= |s|
      invariant |out| == c
      invariant forall k :: 0 <= k < c ==> encoded[k] == out[k]
      invariant forall k :: c <= k < encoded.Length ==> encoded[k] == was[k]
      invariant SplitResult(UrlDecode(s), out, DecodedFrom(s, i))
      decreases |s| - i
    {
      DecodedFromStep(s, i);
      encoded[c] := encoded[i];
      if encoded[i] == '%' && encoded[i + 1] != '\0' && encoded[i + 2] != '\0' {
        var pair := DecodePair(encoded[i + 1], encoded[i + 2]);
        if pair.None? {
          SplitResultEnd(UrlDecode(s), out, false);
          OverwrittenIs(was, out, '%', encoded[..]);
          return -1;
        }
        encoded[c] := pair.value;
        i := i + 2;
      }
      SplitResultMoves(UrlDecode(s), out, encoded[c], DecodedFrom(s, i + 1));
      out := out + [encoded[c]];
      c := c + 1;
      i := i + 1;
    }
    SplitResultEnd(UrlDecode(s), out, true);
    encoded[c] := '\0';
    OverwrittenIs(was, out, '\0', encoded[..]);
    return c;
  }

  lemma SplitResultEnd(whole: Decoded, done: bytes, ok: bool)
    requires SplitResult(whole, done, Decoded([], ok))
    ensures whole == Decoded(done, ok)
  {
  }

  // ---------------------------------------------------------------------------------------
  // Percent-encoding
  // ---------------------------------------------------------------------------------------

  function Escape(c: byte): (e: bytes)
    ensures |e| == 1 || |e| == 3
  {
    if Unreserved(c) then [c] else ['%', HexChar(c as int / 16), HexChar(c as int % 16)]
  }

  function UrlEncode(data: bytes): (e: bytes)
    ensures |data| <= |e| <= 3 * |data|
  {
    if data == [] then [] else UrlEncode(data[..|data| - 1]) + Escape(data[|data| - 1])
  }

  /** A character that can stand in an encoded value. */
  predicate EncodedChar(c: byte) {
    Unreserved(c) || c == '%'
  }

  lemma {:induction false} UrlEncodeChars(data: bytes)
    ensures forall k :: 0 <= k < |UrlEncode(data)| ==> EncodedChar(UrlEncode(data)[k])
  {
    if data != [] {
      UrlEncodeChars(data[..|data| - 1]);
    }
  }

  /** Encoding front to back: the form the decoder undoes. */
  lemma {:induction false} UrlEncodeCons(c: byte, rest: bytes)
    ensures UrlEncode([c] + rest) == Escape(c) + UrlEncode(rest)
    decreases |rest|
  {
    hide Escape;
    var data := [c] + rest;
    if rest == [] {
      assert data[..0] == [];
      assert UrlEncode([]) + Escape(c) == Escape(c) + UrlEncode(rest);
    } else {
      var most := rest[..|rest| - 1];
      assert data[..|data| - 1] == [c] + most;
      UrlEncodeCons(c, most);
    }
  }

  lemma DecodeEscape(c: byte, rest: bytes)
    ensures UrlDecode(Escape(c) + rest) == Prefixed(c, UrlDecode(rest))
  {
    var s := Escape(c) + rest;
    if Unreserved(c) {
      assert s[1..] == rest;
    } else {
      assert s[3..] == rest;
      assert c as int == c as int / 16 * 16 + c as int % 16;
    }
  }

  /** Decoding undoes encoding, for any bytes, NUL and '%' included. */
  lemma {:induction false} UrlRoundTrip(data: bytes)
    ensures UrlDecode(UrlEncode(data)) == Decoded(data, true)
  {
    hide Escape;
    if data != [] {
      assert data == [data[0]] + data[1..];
      UrlEncodeCons(data[0], data[1..]);
      DecodeEscape(data[0], UrlEncode(data[1..]));
      UrlRoundTrip(data[1..]);
    }
  }

  /** strncpy: at most `n` bytes, padded with NUL when the text is shorter. */
  function StrNCpy(text: bytes, n: nat): (r: bytes)
    ensures |r| == n
  {
    if |text| >= n then text[..n] else text + seq(n - |text|, i => '\0')
  }

  /** hashEncodeURL: the first 20 bytes are replaced by their percent-encoding. */
  method HashEncodeURL(data: array<byte>, maxlen: nat)
    requires MAX_HASH_LEN <= data.Length && maxlen <= data.Length
    modifies data
    ensures data[..] == StrNCpy(UrlEncode(old(data[..MAX_HASH_LEN])), maxlen) + old(data[maxlen..])
  {
    hide UrlEncode, Escape, StrNCpy;
    var buffer := new byte[MAX_URLENC_HASH_LEN + 1](_ => '\0');
    var i, c := 0, 0;
    ghost var e: bytes := [];
    ghost var was := data[..];
    NothingEncoded(was);
    while i < MAX_HASH_LEN
      invariant 0 <= i <= MAX_HASH_LEN && 0 <= c == |e| <= 3 * i
      invariant e == UrlEncode(was[..i])
      invariant buffer[..c] == e && data[..] == was
    {
      UrlEncodeNext(was, i);
      e := e + Escape(data[i]);
      var escaped := EscapeInto(data[i], buffer, c);
      c := escaped;
      i := i + 1;
    }
    buffer[c] := '\0';
    assert buffer[..c] == e;
    StrNCpyInto(data, buffer, c, maxlen);
  }

  lemma NothingEncoded(data: bytes)
    ensures UrlEncode(data[..0]) == []
  {
  }

  lemma UrlEncodeNext(data: bytes, i: nat)
    requires i < |data|
    ensures UrlEncode(data[..i + 1]) == UrlEncode(data[..i]) + Escape(data[i])
  {
    hide Escape;
    assert data[..i + 1][..i] == data[..i];
  }

  method EscapeInto(ch: byte, buffer: array<byte>, c: nat) returns (end: nat)
    requires c + 3 <= buffer.Length
    modifies buffer
    ensures end == c + |Escape(ch)| && buffer[..end] == old(buffer[..c]) + Escape(ch)
  {
    hide Unreserved, NONRESERVED, HEXDICT, StrLen, CText, HexChar;
    buffer[c] := ch;
    NonReserved(ch);
    NonReservedText();
    HexDictAt(ch as int / 16);
    HexDictAt(ch as int % 16);
    var known := CharIndex(NONRESERVED, ch);
    if known == -1 {
      buffer[c] := '%';
      buffer[c + 1] := HEXDICT[ch as int / 16];
      buffer[c + 2] := HEXDICT[ch as int % 16];
      end := c + 3;
    } else {
      end := c + 1;
    }
  }

  method StrNCpyInto(data: array<byte>, buffer: array<byte>, len: nat, n: nat)
    requires data != buffer && len < buffer.Length && n <= data.Length
    modifies data
    ensures data[..] == StrNCpy(buffer[..len], n) + old(data[n..])
  {
    forall k | 0 <= k < n {
      data[k] := if k < len then buffer[k] else '\0';
    }
  }

  // ---------------------------------------------------------------------------------------
  // Hex form of hashes
  // ---------------------------------------------------------------------------------------

  predicate AllHex(s: bytes) {
    forall k :: 0 <= k < |s| ==> HexVal(s[k]) != -1
  }

  function HexEncode(data: bytes): (e: bytes)
    ensures |e| == 2 * |data| && AllHex(e)
  {
    if data == [] then []
    else HexEncode(data[..|data| - 1])
         + [HexChar(data[|data| - 1] as int / 16), HexChar(data[|data| - 1] as int % 16)]
  }

  function HexDecode(s: bytes): (d: Decoded)
    ensures 2 * |d.out| <= |s| && (d.ok ==> 2 * |d.out| == |s|)
  {
    if s == [] then Decoded([], true)
    else if |s| == 1 then Decoded([], false)
    else match HexPair(s[0], s[1])
      case None => Decoded([], false)
      case Some(c) => Prefixed(c, HexDecode(s[2..]))
  }

  lemma {:induction false} HexEncodeCons(c: byte, rest: bytes)
    ensures HexEncode([c] + rest) == [HexChar(c as int / 16), HexChar(c as int % 16)] + HexEncode(rest)
    decreases |rest|
  {
    hide HexChar, HexVal;
    var data := [c] + rest;
    if rest == [] {
      assert data[..0] == [];
    } else {
      assert data[..|data| - 1] == [c] + rest[..|rest| - 1];
      HexEncodeCons(c, rest[..|rest| - 1]);
    }
  }

  lemma HexDigits(c: byte)
    ensures HexPair(HexChar(c as int / 16), HexChar(c as int % 16)) == Some(c)
  {
    assert c as int == c as int / 16 * 16 + c as int % 16;
  }

  /** Decoding a hex form gives the bytes back. */
  lemma {:induction false} HexRoundTrip(data: bytes)
    ensures HexDecode(HexEncode(data)) == Decoded(data, true)
  {
    hide HexChar, HexVal, HexPair;
    if data != [] {
      var c, rest := data[0], data[1..];
      assert data == [c] + rest;
      HexEncodeCons(c, rest);
      HexDigits(c);
      assert HexEncode(data)[2..] == HexEncode(rest);
      HexRoundTrip(rest);
    }
  }

  lemma PairDigits(first: byte, second: byte)
    requires HexVal(first) != -1 && HexVal(second) != -1
    ensures HexPair(first, second).Some?
    ensures var c := HexPair(first, second).value as int;
      HexChar(c / 16) == first && HexChar(c % 16) == second
  {
    var c := HexPair(first, second).value as int;
    assert c / 16 == HexVal(first) && c % 16 == HexVal(second);
  }

  /** Encoding the bytes of a lower-case hex string gives the string back. */
  lemma {:induction false} HexReverse(s: bytes)
    requires |s| % 2 == 0 && AllHex(s)
    ensures HexDecode(s).ok && HexEncode(HexDecode(s).out) == s
    decreases |s|
  {
    hide HexChar, HexVal, HexPair;
    if s != [] {
      HexReverse(s[2..]);
      PairDigits(s[0], s[1]);
      HexEncodeCons(HexPair(s[0], s[1]).value, HexDecode(s[2..]).out);
    }
  }

  /** destructiveHexDecode: on a bad digit the bytes decoded so far stay in front. */
  method DestructiveHexDecode(encoded: array<byte>) returns (r: int)
    requires Terminated(encoded[..])
    modifies encoded
    ensures var d := HexDecode(old(CText(encoded[..])));
      && r == (if d.ok then |d.out| else -1)
      && |d.out| <= old(StrLen(encoded[..])) < encoded.Length
      && encoded[..] == if d.ok then Overwritten(old(encoded[..]), d.out, '\0')
                        else d.out + old(encoded[..])[|d.out|..]
  {
    hide HexPair, HexDecode, StrLen, Overwritten, CText, Terminated, HexFrom, Prefixed, SplitResult;
    ghost var was := encoded[..];
    ghost var s := CText(was);
    HexDecodeStart(was);
    var i, c := 0, 0;
    ghost var out: bytes := [];
    while encoded[i] != '\0'
      invariant 0 <= c <= i <= |s|
      invariant |out| == c
      invariant forall k :: 0 <= k < c ==> encoded[k] == out[k]
      invariant forall k :: c <= k < encoded.Length ==> encoded[k] == was[k]
      invariant SplitResult(HexDecode(s), out, HexFrom(s, i))
      decreases |s| - i
    {
      HexFromStep(s, i);
      if encoded[i + 1] == '\0' {
        SplitResultEnd(HexDecode(s), out, false);
        return -1;
      }
      var pair := DecodePair(encoded[i], encoded[i + 1]);
      if pair.None? {
        SplitResultEnd(HexDecode(s), out, false);
        return -1;
      }
      encoded[c] := pair.value;
      SplitResultMoves(HexDecode(s), out, pair.value, HexFrom(s, i + 2));
      out := out + [pair.value];
      c := c + 1;
      i := i + 2;
    }
    SplitResultEnd(HexDecode(s), out, true);
    encoded[c] := '\0';
    OverwrittenIs(was, out, '\0', encoded[..]);
    return c;
  }

  function HexFrom(s: bytes, i: nat): (d: Decoded)
    requires i <= |s|
    ensures i == |s| ==> d == Decoded([], true)
    ensures |d.out| <= |s| - i
  {
    HexDecode(s[i..])
  }

  lemma HexFromStep(s: bytes, i: nat)
    requires i < |s|
    ensures HexFrom(s, i) ==
      if i + 1 == |s| then Decoded([], false)
      else match HexPair(s[i], s[i + 1])
        case None => Decoded([], false)
        case Some(c) => Prefixed(c, HexFrom(s, i + 2))
  {
    hide HexPair;
    if i + 1 < |s| {
      assert s[i..][2..] == s[i + 2..];
    }
  }

  lemma HexDecodeStart(was: bytes)
    requires Terminated(was)
    ensures var s := CText(was);
      && |s| == StrLen(was) && |s| < |was| && was[|s|] == '\0'
      && (forall k :: 0 <= k < |s| ==> s[k] == was[k] && was[k] != '\0')
      && SplitResult(HexDecode(s), [], HexFrom(s, 0))
  {
    var s := CText(was);
    assert s[0..] == s;
  }

  /** hashEncodeHex; a negative length compares as a large unsigned number. */
  method HashEncodeHex(hash: array<byte>, buffer_length: int) returns (r: int)
    requires !(0 <= buffer_length <= MAX_HEXENC_HASH_LEN) ==> hash.Length > MAX_HEXENC_HASH_LEN
    modifies hash
    ensures r == if 0 <= buffer_length <= MAX_HEXENC_HASH_LEN then -1 else 0
    ensures r == -1 ==> hash[..] == old(hash[..])
    ensures r == 0 ==>
      hash[..] == HexEncode(old(hash[..MAX_HASH_LEN])) + ['\0'] + old(hash[MAX_HEXENC_HASH_LEN + 1..])
  {
    hide HexEncode, HexChar, HexVal, HEXDICT;
    if 0 <= buffer_length <= MAX_HEXENC_HASH_LEN {
      return -1;
    }
    var buffer := new byte[MAX_HEXENC_HASH_LEN + 1](_ => '\0');
    var i := 0;
    ghost var was := hash[..];
    NoHex(was);
    while i < MAX_HASH_LEN
      invariant 0 <= i <= MAX_HASH_LEN && hash[..] == was
      invariant buffer[..2 * i] == HexEncode(was[..i])
    {
      HexDictAt(hash[i] as int / 16);
      HexDictAt(hash[i] as int % 16);
      HexEncodeNext(was, i);
      ghost var before := buffer[..2 * i];
      buffer[i * 2] := HEXDICT[hash[i] as int / 16];
      buffer[i * 2 + 1] := HEXDICT[hash[i] as int % 16];
      assert buffer[..2 * i + 2] == before + [HexChar(was[i] as int / 16), HexChar(was[i] as int % 16)];
      i := i + 1;
    }
    buffer[i * 2] := '\0';
    assert buffer[..MAX_HEXENC_HASH_LEN] == HexEncode(was[..MAX_HASH_LEN]);
    forall k | 0 <= k < MAX_HEXENC_HASH_LEN + 1 {
      hash[k] := buffer[k];
    }
    return 0;
  }

  lemma NoHex(data: bytes)
    ensures HexEncode(data[..0]) == []
  {
  }

  lemma HexEncodeNext(data: bytes, i: nat)
    requires i < |data|
    ensures HexEncode(data[..i + 1]) ==
      HexEncode(data[..i]) + [HexChar(data[i] as int / 16), HexChar(data[i] as int % 16)]
  {
    hide HexChar, HexVal;
    assert data[..i + 1][..i] == data[..i];
  }

  /** The 20 bytes that hashEncodeHex takes, whatever became of the decoding before it. */
  function HashBytes(info_hash: bytes): bytes
    requires Terminated(info_hash) && |info_hash| == MAX_URLENC_HASH_LEN + 1
  {
    var d := UrlDecode(CText(info_hash));
    Overwritten(info_hash, d.out, if d.ok then '\0' else '%')[..MAX_HASH_LEN]
  }

  lemma HashBytesDecoded(info_hash: bytes)
    requires Terminated(info_hash) && |info_hash| == MAX_URLENC_HASH_LEN + 1
    requires UrlDecode(CText(info_hash)).ok && |UrlDecode(CText(info_hash)).out| == MAX_HASH_LEN
    ensures HashBytes(info_hash) == UrlDecode(CText(info_hash)).out
  {
  }

  lemma HexText(h: bytes, rest: bytes)
    ensures CText(HexEncode(h) + ['\0'] + rest) == HexEncode(h)
  {
    hide HexEncode, StrLen;
    var s := HexEncode(h) + ['\0'] + rest;
    forall k | 0 <= k < |HexEncode(h)| ensures s[k] != '\0' {
      assert s[k] == HexEncode(h)[k];
    }
    StrLenIs(s, |HexEncode(h)|);
  }

  /**
    The database key of an announce (track.c): the hash field is decoded and hex-encoded in
    place. The result is always 40 hex digits; a failed or short decoding is only reported.
   */
  method TorrentKey(info_hash: array<byte>) returns (hashlen: int)
    requires info_hash.Length == MAX_URLENC_HASH_LEN + 1 && Terminated(info_hash[..])
    modifies info_hash
    ensures var d := UrlDecode(old(CText(info_hash[..])));
      hashlen == if d.ok then |d.out| else -1
    ensures CText(info_hash[..]) == HexEncode(old(HashBytes(info_hash[..])))
    ensures |CText(info_hash[..])| == MAX_HEXENC_HASH_LEN && AllHex(CText(info_hash[..]))
    ensures Terminated(info_hash[..])
  {
    hide UrlDecode, HexEncode, AllHex, StrLen, Overwritten, HexVal;
    hashlen := DestructiveURLDecode(info_hash);
    ghost var h := info_hash[..MAX_HASH_LEN];
    ghost var rest := info_hash[MAX_HEXENC_HASH_LEN + 1..];
    var encoded := HashEncodeHex(info_hash, MAX_URLENC_HASH_LEN);
    HexText(h, rest);
  }
}
