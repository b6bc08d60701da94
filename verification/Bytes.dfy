/** Bytes, Go's fixed-width integers, and little-endian fields. */
module Bytes {
  type byte = x: int | 0 <= x < 256

  const TWO_64: int := 0x1_0000_0000_0000_0000

  type uint64 = x: int | 0 <= x < 0x1_0000_0000_0000_0000

  /** The width of Go's `int` on the host that runs the code. */
  datatype Width = W32 | W64 {
    function Modulus(): int {
      match this
      case W32 => 0x1_0000_0000
      case W64 => 0x1_0000_0000_0000_0000
    }

    function MaxInt(): int {
      match this
      case W32 => 0x7FFF_FFFF
      case W64 => 0x7FFF_FFFF_FFFF_FFFF
    }

    /** The value a Go `int` holds after a computation whose exact result is `x`. */
    function Wrap(x: int): int {
      match this
      case W32 => (x + 0x8000_0000) % 0x1_0000_0000 - 0x8000_0000
      case W64 => (x + 0x8000_0000_0000_0000) % 0x1_0000_0000_0000_0000 - 0x8000_0000_0000_0000
    }

    /** The bits of `x` that a conversion to `int` keeps, read as unsigned. */
    function Low(x: uint64): (low: uint64)
      ensures low <= x && low < Modulus()
    {
      match this
      case W32 => x % 0x1_0000_0000
      case W64 => x
    }
  }

  /** Wrapping an intermediate result and then adding is the same as wrapping once at the end. */
  lemma WrapAbsorbs(w: Width, x: int, y: int)
    ensures w.Wrap(w.Wrap(x) + y) == w.Wrap(x + y)
  {
    match w
    case W32 => ModOfSum32(x + 0x8000_0000, y);
    case W64 => ModOfSum64(x + 0x8000_0000_0000_0000, y);
  }

  lemma ModOfSum32(a: int, b: int)
    ensures (a % 0x1_0000_0000 + b) % 0x1_0000_0000 == (a + b) % 0x1_0000_0000
  {
  }

  lemma ModOfSum64(a: int, b: int)
    ensures (a % 0x1_0000_0000_0000_0000 + b) % 0x1_0000_0000_0000_0000 == (a + b) % 0x1_0000_0000_0000_0000
  {
  }

  /** Converting to `int` keeps the low bits and reads them as a signed number. */
  lemma WrapIsSigned(w: Width, x: uint64)
    ensures w.Wrap(x) == if w.Low(x) <= w.MaxInt() then w.Low(x) else w.Low(x) - w.Modulus()
  {
    match w
    case W32 =>
      ModOfSum32(x, 0x8000_0000);
      WrapOnce(w, w.Low(x));
    case W64 =>
      WrapOnce(w, x);
  }

  /** A 64-bit `int` keeps every bit; a 32-bit one does exactly for values below 2^32. */
  lemma AllBits(x: uint64)
    ensures W64.Low(x) == x
    ensures W32.Low(x) == x <==> x < 0x1_0000_0000
  {
  }

  /** A size that fits `int` is computed exactly; a wrapped one is never mistaken for it. */
  lemma WrapOfSize(w: Width, n: nat)
    ensures w.Wrap(n) == n <==> n <= w.MaxInt()
    ensures w.Wrap(n) >= 0 || n > w.MaxInt()
  {
  }

  /** The sum of two `int`s wraps at most once. */
  lemma WrapOnce(w: Width, x: int)
    requires -w.MaxInt() - 1 <= x < w.Modulus()
    ensures w.Wrap(x) == if x <= w.MaxInt() then x else x - w.Modulus()
  {
  }

  /** Go's conversion to `uint64`, which drops whole multiples of 2^64. */
  function ToU64(n: nat): uint64 {
    if n < 0x1_0000_0000_0000_0000 then n else ToU64(n - 0x1_0000_0000_0000_0000)
  }

  lemma {:induction false} ToU64IsMod(n: nat)
    ensures ToU64(n) == n % 0x1_0000_0000_0000_0000
  {
    if n >= 0x1_0000_0000_0000_0000 {
      ToU64IsMod(n - 0x1_0000_0000_0000_0000);
    }
  }

  /** A size that fits `int` survives every conversion the code applies to it. */
  lemma SizeExact(w: Width, n: nat)
    requires n <= w.MaxInt()
    ensures ToU64(n) == w.Low(n) == n
  {
  }

  function Zeros(n: nat): (z: seq<byte>)
    ensures |z| == n
    ensures forall i :: 0 <= i < n ==> z[i] == 0
  {
    seq(n, i => 0)
  }

  /** The bytes of an ASCII string literal. */
  function Ascii(s: string): (b: seq<byte>)
    requires IsAscii(s)
    ensures |b| == |s|
    ensures forall i :: 0 <= i < |s| ==> b[i] == s[i] as int
  {
    seq(|s|, i requires 0 <= i < |s| => s[i] as int)
  }

  predicate IsAscii(s: string) {
    forall i :: 0 <= i < |s| ==> s[i] as int < 128
  }

  lemma AsciiInjective(s: string, t: string)
    requires IsAscii(s) && IsAscii(t)
    ensures Ascii(s) == Ascii(t) <==> s == t
  {
    if Ascii(s) == Ascii(t) {
      forall i | 0 <= i < |s| ensures s[i] == t[i] {
        assert Ascii(s)[i] == Ascii(t)[i];
      }
    }
  }

  function Pow256(k: nat): (p: nat)
    ensures p >= 1
  {
    if k == 0 then 1 else 256 * Pow256(k - 1)
  }

  /** The `k` low-order bytes of `n`, least significant first. */
  function LE(n: nat, k: nat): (s: seq<byte>)
    ensures |s| == k
  {
    if k == 0 then [] else [n % 256] + LE(n / 256, k - 1)
  }

  function FromLE(s: seq<byte>): nat {
    if s == [] then 0 else s[0] + 256 * FromLE(s[1..])
  }

  lemma {:induction false} FromLEBound(s: seq<byte>)
    ensures FromLE(s) < Pow256(|s|)
  {
    if s != [] {
      FromLEBound(s[1..]);
    }
  }

  lemma {:induction false} FromLEOfLE(n: nat, k: nat)
    requires n < Pow256(k)
    ensures FromLE(LE(n, k)) == n
  {
    if k > 0 {
      FromLEOfLE(n / 256, k - 1);
      assert LE(n, k)[1..] == LE(n / 256, k - 1);
    }
  }

  lemma {:induction false} LEOfFromLE(s: seq<byte>)
    ensures LE(FromLE(s), |s|) == s
  {
    if s != [] {
      LEOfFromLE(s[1..]);
      assert FromLE(s) / 256 == FromLE(s[1..]);
      assert s == [s[0]] + s[1..];
    }
  }

  /** Byte `i` of a field is the `i`-th base-256 digit: least significant first. */
  lemma {:induction false} LEAt(n: nat, k: nat, i: nat)
    requires i < k
    ensures LE(n, k)[i] == Digit(n, i)
  {
    if i > 0 {
      LEAt(n / 256, k - 1, i - 1);
    }
  }

  function Digit(n: nat, i: nat): byte {
    if i == 0 then n % 256 else Digit(n / 256, i - 1)
  }

  lemma FieldSizes()
    ensures Pow256(2) == 0x1_0000
    ensures Pow256(8) == TWO_64
  {
    assert Pow256(2) == 256 * 256 * Pow256(0);
    assert Pow256(4) == 256 * 256 * Pow256(2);
    assert Pow256(6) == 256 * 256 * Pow256(4);
    assert Pow256(8) == 256 * 256 * Pow256(6);
  }

  /** An unsigned field of `k` bytes, in the two sizes the format uses. */
  lemma FieldRoundTrip(n: nat, k: nat)
    requires (k == 2 && n < 0x1_0000) || (k == 8 && n < TWO_64)
    ensures FromLE(LE(n, k)) == n
  {
    FieldSizes();
    FromLEOfLE(n, k);
  }

  function U64(s: seq<byte>): uint64
    requires |s| == 8
  {
    FromLEBound(s);
    FieldSizes();
    FromLE(s)
  }

  function U16(s: seq<byte>): (n: nat)
    requires |s| == 2
    ensures n <= 0xFFFF
  {
    FromLEBound(s);
    FieldSizes();
    FromLE(s)
  }
}
