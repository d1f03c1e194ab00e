/**
  C character data: bytes, NUL-terminated buffers and decimal numerals.

  A `char*` into a buffer is modelled as the buffer contents plus an index. Reading
  outside the buffer yields NUL, so every scanning loop stops at the end of the data.
 */
module CStrings {

  type byte = c: char | (c as int) < 256 witness '\0'

  type bytes = seq<byte>

  /** The contents of a C string: no NUL inside. */
  type cstr = s: bytes | forall k :: 0 <= k < |s| ==> s[k] != '\0' witness []

  datatype Option<+T> = None | Some(value: T)

  /** Value of the byte `buf[i]`; NUL outside the buffer. */
  function At(s: bytes, i: int): byte {
    if 0 <= i < |s| then s[i] else '\0'
  }

  predicate IsDigit(c: byte) {
    '0' <= c <= '9'
  }

  predicate AllDigits(s: bytes) {
    forall k :: 0 <= k < |s| ==> IsDigit(s[k])
  }

  /** The text `w` stands in the buffer at index `p`. */
  predicate IsAt(s: bytes, p: int, w: bytes) {
    0 <= p && p + |w| <= |s| && forall k :: 0 <= k < |w| ==> s[p + k] == w[k]
  }

  lemma IsAtConcat(s: bytes, p: int, a: bytes, b: bytes)
    ensures IsAt(s, p, a + b) <==> IsAt(s, p, a) && IsAt(s, p + |a|, b)
  {
    if IsAt(s, p, a + b) {
      forall k | 0 <= k < |b| ensures s[p + |a| + k] == b[k] {
        assert (a + b)[|a| + k] == b[k];
      }
      forall k | 0 <= k < |a| ensures s[p + k] == a[k] {
        assert (a + b)[k] == a[k];
      }
    }
  }

  lemma IsAtSlice(s: bytes, p: int, w: bytes)
    ensures IsAt(s, p, w) <==> 0 <= p && p + |w| <= |s| && s[p..p + |w|] == w
  {
    if 0 <= p && p + |w| <= |s| && s[p..p + |w|] == w {
      forall k | 0 <= k < |w| ensures s[p + k] == w[k] {
        assert s[p..p + |w|][k] == s[p + k];
      }
    }
  }

  lemma IsAtByte(s: bytes, p: int, w: bytes, k: int)
    requires IsAt(s, p, w) && 0 <= k < |w|
    ensures At(s, p + k) == w[k]
  {
  }

  /** Number of consecutive digits from index `p` on: the `isdigit` loops. */
  function DigitRun(s: bytes, p: int): (n: nat)
    ensures forall k :: p <= k < p + n ==> IsDigit(At(s, k))
    ensures forall k :: p <= k < p + n ==> 0 <= k < |s| && IsDigit(s[k])
    ensures !IsDigit(At(s, p + n))
    ensures n > 0 ==> 0 <= p && p + n <= |s|
    decreases |s| - p
  {
    if IsDigit(At(s, p)) then 1 + DigitRun(s, p + 1) else 0
  }

  /** A run of exactly `n` digits is what `DigitRun` finds. */
  lemma {:induction false} DigitRunIs(s: bytes, p: int, n: nat)
    requires forall k :: p <= k < p + n ==> IsDigit(At(s, k))
    requires !IsDigit(At(s, p + n))
    ensures DigitRun(s, p) == n
    decreases n
  {
    if n > 0 {
      DigitRunIs(s, p + 1, n - 1);
    }
  }

  function DigitValue(c: byte): (d: nat)
    requires IsDigit(c)
    ensures d < 10
  {
    c as int - '0' as int
  }

  function DigitChar(d: nat): (c: byte)
    requires d < 10
    ensures IsDigit(c) && DigitValue(c) == d
  {
    ('0' as int + d) as char
  }

  /** The number a decimal numeral denotes, leading zeros included; 0 for no digits. */
  function DecValue(s: bytes): nat
    requires AllDigits(s)
  {
    if s == [] then 0 else 10 * DecValue(s[..|s| - 1]) + DigitValue(s[|s| - 1])
  }

  /** The digits standing at index `p`. */
  function Digits(s: bytes, p: int): (d: bytes)
    ensures AllDigits(d) && |d| == DigitRun(s, p)
  {
    var n := DigitRun(s, p);
    if n == 0 then [] else
    s[p..p + n]
  }

  lemma DigitsAt(s: bytes, p: int, d: bytes)
    requires AllDigits(d) && IsAt(s, p, d) && !IsDigit(At(s, p + |d|))
    ensures Digits(s, p) == d
  {
    forall k | p <= k < p + |d| ensures IsDigit(At(s, k)) {
      IsAtByte(s, p, d, k - p);
    }
    DigitRunIs(s, p, |d|);
    IsAtSlice(s, p, d);
  }

  /** `%d` for a non-negative number. */
  function Dec(n: nat): (s: bytes)
    ensures |s| >= 1 && AllDigits(s)
    ensures n < 10 <==> |s| == 1
  {
    if n < 10 then [DigitChar(n)] else Dec(n / 10) + [DigitChar(n % 10)]
  }

  lemma {:induction false} DecValueDec(n: nat)
    ensures DecValue(Dec(n)) == n
  {
    if n < 10 {
      assert Dec(n)[..0] == [];
    } else {
      DecValueDec(n / 10);
      assert Dec(n)[..|Dec(n)| - 1] == Dec(n / 10);
    }
  }

  function Pow10(k: nat): nat {
    if k == 0 then 1 else 10 * Pow10(k - 1)
  }

  /** A number below 10^k prints in at most k digits. */
  lemma {:induction false} DecLength(n: nat, k: nat)
    requires k >= 1 && n < Pow10(k)
    ensures |Dec(n)| <= k
  {
    if k >= 2 && n >= 10 {
      DecLength(n / 10, k - 1);
    }
  }

  /** `%d` for any int. */
  function DecInt(n: int): (s: bytes)
    ensures |s| >= 1
  {
    if n < 0 then ['-'] + Dec(-n) else Dec(n)
  }
}
