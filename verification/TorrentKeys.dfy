/**
  Database keys (track.c): what `info_hash` is in the request line against the key that
  decoding and hex-encoding leave in the field. Two spellings of one hash have one key as long
  as the length gate and the decoder agree on them; the gate also lets others through.
 */
module TorrentKeys {
  import opened CStrings
  import opened Encoding
  import opened NetText
  import opened Comm

  /** The key under which `TorrentKey` leaves a parameter that was copied into the field. */
  function KeyOf(text: cstr): (key: bytes)
    requires |text| < FIELD
    ensures |key| == MAX_HEXENC_HASH_LEN && AllHex(key)
  {
    FieldText(text);
    HexEncode(HashBytes(Field(text)))
  }

  lemma SameDigits(a: bytes, b: bytes)
    ensures HexEncode(a) == HexEncode(b) <==> a == b
  {
    hide HexEncode, HexDecode;
    HexRoundTrip(a);
    HexRoundTrip(b);
  }

  /** The parameter at `p` passes the gate, and each of its escapes is two lower-case hex digits. */
  predicate WellSpelled(line: bytes, p: nat) {
    p <= |line| && PassesGate(line, p) && Spelled(Param(line, p), At(line, p + ParamLength(line, p)))
  }

  /** A parameter that passes the gate gets the key of the bytes it denotes exactly when it is well spelled. */
  lemma KeyOfBytes(line: bytes, p: nat)
    requires p <= |line| && PassesGate(line, p)
    ensures |Param(line, p)| < FIELD
    ensures WellSpelled(line, p) <==>
      var d := UrlDecode(Param(line, p)); d.ok && KeyOf(Param(line, p)) == HexEncode(d.out)
  {
    hide HexEncode, UrlDecode, Field, Spelled, ParamLength, DecodedLength, HashBytes;
    GateBound(line, p);
    GateDecodes(line, p);
    var e := Param(line, p);
    FieldText(e);
    var d := UrlDecode(e);
    if d.ok && |d.out| == MAX_HASH_LEN {
      HashBytesDecoded(Field(e));
    }
    SameDigits(HashBytes(Field(e)), d.out);
    TwentyBytes(Field(e));
  }

  lemma TwentyBytes(field: bytes)
    requires Terminated(field) && |field| == FIELD
    ensures |HashBytes(field)| == MAX_HASH_LEN
  {
  }

  /** Keys are canonical: two well-spelled parameters get the same key if and only if they denote the same bytes. */
  lemma SameKey(line: bytes, p: nat, other: bytes, q: nat)
    requires WellSpelled(line, p) && WellSpelled(other, q)
    ensures |Param(line, p)| < FIELD && |Param(other, q)| < FIELD
    ensures KeyOf(Param(line, p)) == KeyOf(Param(other, q)) <==>
      UrlDecode(Param(line, p)).out == UrlDecode(Param(other, q)).out
  {
    hide HexEncode, UrlDecode, KeyOf, Param;
    KeyOfBytes(line, p);
    KeyOfBytes(other, q);
    SameDigits(UrlDecode(Param(line, p)).out, UrlDecode(Param(other, q)).out);
  }

  // ---------------------------------------------------------------------------------------
  // The others
  // ---------------------------------------------------------------------------------------

  predicate Plain(c: byte) {
    !Delimiter(c) && c != '%'
  }

  lemma {:induction false} PlainDecodes(s: bytes)
    requires forall i :: 0 <= i < |s| ==> s[i] != '%' || i + 2 >= |s|
    ensures UrlDecode(s) == Decoded(s, true)
  {
    if s != [] {
      PlainDecodes(s[1..]);
    }
  }

  lemma {:induction false} PlainCounts(s: bytes, mlen: nat, i: nat, n: nat)
    requires i <= n <= mlen && n <= |s| && forall k :: i <= k < n ==> Plain(s[k])
    ensures DecodedLength(s, 0, mlen, i) == n - i + DecodedLength(s, 0, mlen, n)
    decreases n - i
  {
    if i < n {
      PlainCounts(s, mlen, i + 1, n);
    }
  }

  /** 19 plain bytes, a per cent sign and one more byte, and the next parameter behind it. */
  function CutEscape(front: cstr, x: byte): cstr
    requires Plain(x)
  {
    front + ['%', x]
  }

  /** The gate counts the cut-off escape as one byte, the decoder as two. */
  lemma CutEscapePasses(front: cstr, x: byte)
    requires Plain(x) && |front| == MAX_HASH_LEN - 1 && forall k :: 0 <= k < |front| ==> Plain(front[k])
    ensures var line: bytes := CutEscape(front, x) + "&";
      && PassesGate(line, 0) && Param(line, 0) == CutEscape(front, x)
      && UrlDecode(CutEscape(front, x)) == Decoded(CutEscape(front, x), true)
  {
    hide UrlDecode, DecodedLength, ParamLength, Param;
    var e, line: bytes := CutEscape(front, x), CutEscape(front, x) + "&";
    assert forall k :: 0 <= k < |front| ==> line[k] == front[k];
    assert line[19] == '%' && line[20] == x && line[21] == '&';
    ParamLengthIs(line, 0, 21);
    ParamIs(line, 21, e);
    PlainCounts(line, 21, 0, 19);
    LastTwo(line);
    PlainDecodes(e);
  }

  lemma ParamIs(line: bytes, n: nat, e: bytes)
    requires ParamLength(line, 0) == n <= |line| && e == line[..n]
    ensures Param(line, 0) == e
  {
  }

  lemma LastTwo(line: bytes)
    requires |line| == 22 && line[19] == '%' && line[20] != '\0' && line[21] != '\0'
    ensures DecodedLength(line, 0, 21, 19) == 1
  {
    assert CountsAsEscape(line, 19);
    assert DecodedLength(line, 0, 21, 22) == 0;
  }

  /** Two such parameters denote different bytes and get one key. */
  lemma OneKeyForTwo(front: cstr, x: byte, y: byte)
    requires |front| == MAX_HASH_LEN - 1 && forall k :: 0 <= k < |front| ==> Plain(front[k])
    requires Plain(x) && Plain(y) && x != y
    ensures PassesGate(CutEscape(front, x) + "&", 0) && PassesGate(CutEscape(front, y) + "&", 0)
    ensures UrlDecode(CutEscape(front, x)).out != UrlDecode(CutEscape(front, y)).out
    ensures KeyOf(CutEscape(front, x)) == KeyOf(CutEscape(front, y))
  {
    hide UrlDecode, DecodedLength, ParamLength, HexEncode, HashBytes;
    CutEscapePasses(front, x);
    CutEscapePasses(front, y);
    CutEscapeKey(front, x);
    CutEscapeKey(front, y);
    assert CutEscape(front, x)[20] == x && CutEscape(front, y)[20] == y;
  }

  lemma CutEscapeKey(front: cstr, x: byte)
    requires Plain(x) && |front| == MAX_HASH_LEN - 1 && forall k :: 0 <= k < |front| ==> Plain(front[k])
    requires UrlDecode(CutEscape(front, x)) == Decoded(CutEscape(front, x), true)
    ensures KeyOf(CutEscape(front, x)) == HexEncode(front + ['%'])
  {
    hide UrlDecode, HexEncode, Field;
    var e := CutEscape(front, x);
    FieldText(e);
    assert Overwritten(Field(e), e, '\0')[..MAX_HASH_LEN] == front + ['%'];
  }
}
