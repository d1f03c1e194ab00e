/**
  Text scanning of neth.c: parameters in a request line. Positions are indices into a C
  string; a pointer behind a match is the index of the first byte after it.
 */
module NetText {
  import opened CStrings
  import opened Encoding

  // ---------------------------------------------------------------------------------------
  // strstr and textAfter
  // ---------------------------------------------------------------------------------------

  /** `r` is the first place where `w` stands in `s` at or behind `from`. */
  ghost predicate IsFirst(s: bytes, w: bytes, from: nat, r: Option<nat>) {
    && (r.Some? ==> from <= r.value && IsAt(s, r.value, w))
    && (forall k :: from <= k < (if r.Some? then r.value else |s| + 1) ==> !IsAt(s, k, w))
  }

  /** strstr */
  function Find(s: bytes, w: bytes, from: nat := 0): (r: Option<nat>)
    requires from <= |s|
    ensures IsFirst(s, w, from, r)
    ensures r.Some? ==> from <= r.value && r.value + |w| <= |s|
    decreases |s| - from
  {
    if IsAt(s, from, w) then Some(from)
    else if from == |s| then None
    else Find(s, w, from + 1)
  }

  lemma FindIs(s: bytes, w: bytes, r: Option<nat>)
    requires IsFirst(s, w, 0, r)
    ensures Find(s, w) == r
  {
    var f := Find(s, w);
    assert r.Some? ==> r.value <= |s|;
    if f.Some? && r.Some? {
      assert !(f.value < r.value) && !(r.value < f.value);
    }
  }

  /** Where textAfter points, if the parameter occurs. */
  function After(s: bytes, param: bytes): (r: Option<nat>)
    ensures r.Some? ==> r.value <= |s|
  {
    match Find(s, param)
    case None => None
    case Some(k) => Some(k + |param|)
  }

  method StrStr(s: cstr, w: cstr) returns (r: Option<nat>)
    ensures r == Find(s, w)
  {
    var k := 0;
    while k <= |s|
      invariant 0 <= k <= |s| + 1
      invariant forall j :: 0 <= j < k ==> !IsAt(s, j, w)
    {
      if IsAt(s, k, w) {
        FindIs(s, w, Some(k));
        return Some(k);
      }
      k := k + 1;
    }
    FindIs(s, w, None);
    return None;
  }

  method TextAfter(s: cstr, param: cstr) returns (r: Option<nat>)
    ensures r == After(s, param)
  {
    var k := StrStr(s, param);
    r := if k.None? then None else Some(k.value + |param|);
  }

  // ---------------------------------------------------------------------------------------
  // Parameter length and the length it decodes to
  // ---------------------------------------------------------------------------------------

  predicate Delimiter(c: byte) {
    c == '\0' || c == '&' || c == ' '
  }

  /** httpParamLength: distance to the next delimiter. */
  function ParamLength(s: bytes, p: nat): (n: nat)
    ensures forall k :: p <= k < p + n ==> !Delimiter(At(s, k))
    ensures forall k :: p <= k < p + n ==> k < |s| && s[k] != '\0'
    ensures Delimiter(At(s, p + n))
    ensures p <= |s| ==> p + n <= |s|
    decreases |s| - p
  {
    if Delimiter(At(s, p)) then 0 else 1 + ParamLength(s, p + 1)
  }

  lemma {:induction false} ParamLengthIs(s: bytes, p: nat, n: nat)
    requires forall k :: p <= k < p + n ==> !Delimiter(At(s, k))
    requires Delimiter(At(s, p + n))
    ensures ParamLength(s, p) == n
    decreases n
  {
    if n > 0 {
      assert !Delimiter(At(s, p));
      ParamLengthIs(s, p + 1, n - 1);
    }
  }

  method HttpParamLength(s: bytes, p: nat) returns (i: nat)
    ensures i == ParamLength(s, p)
  {
    i := 0;
    while !Delimiter(At(s, p + i))
      invariant i + ParamLength(s, p + i) == ParamLength(s, p)
      decreases ParamLength(s, p + i)
    {
      i := i + 1;
    }
  }

  /** An escape as decodedStrlen sees it: it looks past the end of the parameter. */
  predicate CountsAsEscape(s: bytes, i: int) {
    At(s, i) == '%' && At(s, i + 1) != '\0' && At(s, i + 2) != '\0'
  }

  /** decodedStrlen from the i-th byte of a text of `mlen` bytes on; -1 means no bound. */
  function DecodedLength(s: bytes, p: nat, mlen: int, i: nat := 0): (c: nat)
    requires mlen >= -1
    decreases |s| - (p + i)
  {
    if At(s, p + i) == '\0' || (mlen != -1 && i >= mlen) then 0
    else 1 + DecodedLength(s, p, mlen, if CountsAsEscape(s, p + i) then i + 3 else i + 1)
  }

  method DecodedStrlen(s: bytes, p: nat, mlen: int) returns (c: nat)
    requires mlen >= -1
    ensures c == DecodedLength(s, p, mlen)
  {
    var i := 0;
    c := 0;
    while At(s, p + i) != '\0' && (mlen == -1 || i < mlen)
      invariant 0 <= i && c + DecodedLength(s, p, mlen, i) == DecodedLength(s, p, mlen)
      decreases DecodedLength(s, p, mlen, i)
    {
      if CountsAsEscape(s, p + i) {
        i := i + 2;
      }
      i, c := i + 1, c + 1;
    }
  }

  /** Every count takes at most three bytes of the parameter. */
  lemma {:induction false} DecodedLengthBound(s: bytes, p: nat, mlen: nat, i: nat)
    requires p + mlen <= |s| && forall k :: p <= k < p + mlen ==> s[k] != '\0'
    ensures i <= mlen ==> mlen - i <= 3 * DecodedLength(s, p, mlen, i)
    decreases mlen - i
  {
    if i < mlen {
      DecodedLengthBound(s, p, mlen, i + 1);
      DecodedLengthBound(s, p, mlen, i + 3);
    }
  }

  /**
    The length gate: a parameter that counts as 20 decoded bytes has at most 60 bytes, so
    it fits the 61-byte fields with room for the terminator.
   */
  lemma GateBound(s: bytes, p: nat)
    requires p <= |s| && DecodedLength(s, p, ParamLength(s, p)) == 20
    ensures ParamLength(s, p) <= 60
  {
    var n := ParamLength(s, p);
    forall k | p <= k < p + n ensures s[k] != '\0' {
      assert !Delimiter(At(s, k));
    }
    DecodedLengthBound(s, p, n, 0);
  }

  // ---------------------------------------------------------------------------------------
  // The gate against the decoder
  // ---------------------------------------------------------------------------------------

  /**
    From place `i` on, every escape the decoder meets is two lower-case hex digits, and the
    text does not end in `%` and one character while more of the line follows it.
   */
  predicate Spelled(e: bytes, next: byte, i: nat := 0)
    requires i <= |e|
    decreases |e| - i
  {
    if i == |e| then true
    else if EscapeAt(e, i) then HexPair(e[i + 1], e[i + 2]).Some? && Spelled(e, next, i + 3)
    else !(e[i] == '%' && i + 2 == |e| && next != '\0') && Spelled(e, next, i + 1)
  }

  /** The parameter that starts at `p`. */
  function Param(s: bytes, p: nat): (e: cstr)
    requires p <= |s|
    ensures |e| == ParamLength(s, p)
  {
    var n := ParamLength(s, p);
    s[p..p + n]
  }

  lemma ParamByte(s: bytes, p: nat, k: nat)
    requires p <= |s| && k < ParamLength(s, p)
    ensures Param(s, p)[k] == At(s, p + k) && At(s, p + k) != '\0'
  {
    assert !Delimiter(At(s, p + k));
  }

  lemma {:induction false} GateStep(s: bytes, p: nat, i: nat)
    requires p <= |s| && i <= ParamLength(s, p)
    ensures var e, next, n := Param(s, p), At(s, p + ParamLength(s, p)), ParamLength(s, p);
      var d := DecodedFrom(e, i);
      && (Spelled(e, next, i) ==> d.ok && |d.out| == DecodedLength(s, p, n, i))
      && (d.ok && !Spelled(e, next, i) ==> |d.out| > DecodedLength(s, p, n, i))
    decreases ParamLength(s, p) - i
  {
    hide HexPair, DecodedFrom, Param;
    var n := ParamLength(s, p);
    var e := Param(s, p);
    if i < n {
      ParamByte(s, p, i);
      if i + 1 < n {
        ParamByte(s, p, i + 1);
      }
      if i + 2 < n {
        ParamByte(s, p, i + 2);
      }
      DecodedFromStep(e, i);
      GateStep(s, p, i + 1);
      if i + 3 <= n {
        GateStep(s, p, i + 3);
      }
    }
  }

  /**
    A parameter that passes the gate decodes to exactly 20 bytes if and only if it is spelled
    well.
   */
  lemma GateDecodes(s: bytes, p: nat)
    requires p <= |s| && DecodedLength(s, p, ParamLength(s, p)) == MAX_HASH_LEN
    ensures var d := UrlDecode(Param(s, p));
      d.ok && |d.out| == MAX_HASH_LEN <==> Spelled(Param(s, p), At(s, p + ParamLength(s, p)))
  {
    GateStep(s, p, 0);
    assert Param(s, p)[0..] == Param(s, p);
  }
}
