/** The Go built-in types and operations the adapter relies on. */
module Go {

  type byte = x: int | 0 <= x < 0x100
  type uint32 = x: int | 0 <= x < 0x1_0000_0000
  type uint64 = x: int | 0 <= x < 0x1_0000_0000_0000_0000
  type int64 = x: int | -0x8000_0000_0000_0000 <= x < 0x8000_0000_0000_0000

  /** The largest Go `int` on a 64-bit platform; no slice is longer. */
  const MaxInt: int := 0x7FFF_FFFF_FFFF_FFFF

  function Min(a: int, b: int): int { if a <= b then a else b }

  /** Go's conversion `uint32(x)` of an `int`: it keeps the low 32 bits of the
      two's-complement value, which is the Euclidean remainder. */
  function ToUint32(x: int): (r: uint32)
    ensures 0 <= x < 0x1_0000_0000 ==> r == x
    ensures x < 0 && -0x1_0000_0000 <= x ==> r == x + 0x1_0000_0000
  {
    x % 0x1_0000_0000
  }

  /** Go's built-in `copy(dst, src)`: copies as many leading elements as both
      hold and returns that count; the rest of `dst` keeps its bytes. */
  method Copy(dst: array<byte>, src: seq<byte>) returns (n: nat)
    modifies dst
    ensures n == Min(dst.Length, |src|)
    ensures dst[..] == src[..n] + old(dst[..])[n..]
  {
    n := Min(dst.Length, |src|);
    forall j | 0 <= j < n {
      dst[j] := src[j];
    }
  }
}
