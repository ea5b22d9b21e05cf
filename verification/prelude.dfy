/**
 Fixed-width integer helpers and the Option wrapper shared by the whole model.

 Dafny's integers are unbounded and its `/` and `%` are Euclidean, so every
 place where the game relies on a machine width (an `u8` life counter, an
 `u32` score, an `as i32` cast) or on truncating division goes through one of
 the functions below.
 */
module Prelude {

  const U32_LIMIT: int := 0x1_0000_0000
  const I32_LIMIT: int := 0x8000_0000

  type u8 = n: int | 0 <= n < 0x100
  type u32 = n: int | 0 <= n < 0x1_0000_0000

  /** The conventional Some/None wrapper: a hardware read that may fail. */
  datatype Option<+T> = None | Some(value: T)

  function Max(a: int, b: int): int { if a >= b then a else b }

  function Min(a: int, b: int): int { if a <= b then a else b }

  function Abs(v: int): int { if v < 0 then -v else v }

  /** `i32::signum`. */
  function Signum(v: int): (s: int)
    ensures -1 <= s <= 1
    ensures s > 0 <==> v > 0
    ensures s < 0 <==> v < 0
  {
    if v > 0 then 1 else if v < 0 then -1 else 0
  }

  /** `i32::clamp(lo, hi)`. */
  function Clamp(v: int, lo: int, hi: int): (r: int)
    requires lo <= hi
    ensures lo <= r <= hi
    ensures lo <= v <= hi ==> r == v
  {
    if v < lo then lo else if v > hi then hi else v
  }

  /** `u8::saturating_sub(1)`. */
  function SaturatingDec(n: u8): (r: u8)
    ensures r <= n
    ensures n > 0 ==> r == n - 1
  {
    if n == 0 then 0 else n - 1
  }

  /** Unsigned 32-bit addition with release-build wrap-around. */
  function WrappingAddU32(a: u32, b: nat): (r: u32)
    ensures a + b < U32_LIMIT ==> r == a + b
  {
    (a + b) % U32_LIMIT
  }

  /** Unsigned 32-bit subtraction with release-build wrap-around. */
  function WrappingSubU32(a: u32, b: u32): (r: u32)
    ensures b <= a ==> r == a - b
  {
    (a - b) % U32_LIMIT
  }

  /** The bit reinterpretation `u32 as i32`. */
  function AsI32(u: u32): (r: int)
    ensures -I32_LIMIT <= r < I32_LIMIT
    ensures u < I32_LIMIT ==> r == u
    ensures u >= I32_LIMIT ==> r == u - U32_LIMIT
  {
    if u < I32_LIMIT then u else u - U32_LIMIT
  }

  /** Rust's `%` on signed integers: the remainder takes the dividend's sign. */
  function TruncRem(a: int, b: int): (r: int)
    requires b > 0
    ensures -b < r < b
    ensures a >= 0 ==> 0 <= r
    ensures a <= 0 ==> r <= 0
  {
    if a >= 0 then a % b else -((-a) % b)
  }

  /** Rust's `/` on signed integers: the quotient is rounded toward zero. */
  function TruncDiv(a: int, b: int): int
    requires b > 0
  {
    if a >= 0 then a / b else -((-a) / b)
  }

  /** Dropping the head of a concatenation drops the head of its left part. */
  lemma ConcatTail<T>(a: seq<T>, b: seq<T>)
    requires |a| > 0
    ensures (a + b)[0] == a[0]
    ensures (a + b)[1..] == a[1..] + b
  {
  }

  /** A sequence cut at `i` reassembles, and its element `i` heads the suffix. */
  lemma SplitAt<T>(s: seq<T>, i: nat)
    requires i < |s|
    ensures s[..i] + s[i..] == s
    ensures s[i..][0] == s[i]
    ensures s[..i] + [s[i]] == s[..i + 1]
    ensures [s[i]][1..] == []
  {
  }

  lemma ConcatAssoc<T>(a: seq<T>, b: seq<T>, c: seq<T>)
    ensures a + (b + c) == (a + b) + c
  {
  }
}
