/**
  What C types and traccoon.h limit: 32-bit int, 64-bit long, and two constants.
 */
module Limits {

  const INT_MAX := 0x7fff_ffff
  const LONG_MAX := 0x7fff_ffff_ffff_ffff
  const ULONG_MAX := 0xffff_ffff_ffff_ffff

  const MAXPEERS_SENT := 50
  const MAX_RECV_ITER := 200

  /** int */
  type cint = n: int | -INT_MAX - 1 <= n <= INT_MAX

  /** Conversion to int keeps 32 bits; it is exact on exactly the numbers an int can hold. */
  function ToInt(n: int): (i: cint)
    ensures i == n <==> -INT_MAX - 1 <= n <= INT_MAX
  {
    var low := n % 0x1_0000_0000;
    if low <= INT_MAX then low else low - 0x1_0000_0000
  }

  /** strtol on a sign and the value of the digits behind it. */
  function Long(neg: bool, value: nat): (n: int)
    ensures -LONG_MAX - 1 <= n <= LONG_MAX
    ensures value <= LONG_MAX ==> n == if neg then 0 - value else value
  {
    if neg then (if value > LONG_MAX then -LONG_MAX - 1 else 0 - value)
    else (if value > LONG_MAX then LONG_MAX else value)
  }

  /** strtoul likewise; a minus sign negates modulo 2^64, which the conversion to int does not see. */
  function ULong(neg: bool, value: nat): (n: int)
    ensures value <= ULONG_MAX ==> n == if neg then 0 - value else value
  {
    if value > ULONG_MAX then ULONG_MAX else if neg then 0 - value else value
  }

  /** A number behind strtoul and the conversion to int is what it was exactly when an int can hold it. */
  lemma ULongExact(n: nat)
    ensures ToInt(ULong(false, n)) == n <==> n <= INT_MAX
  {
  }
}
