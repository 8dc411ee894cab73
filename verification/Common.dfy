/** What several components share: bytes, 64-bit words, optional values and copying. */
module Common {

  datatype Option<T> = None | Some(value: T)

  type Byte = b: int | 0 <= b < 0x100

  /** A 64-bit unsigned integer wraps at `W64`. */
  const W64: nat := 0x1_0000_0000_0000_0000

  type Word64 = w: int | 0 <= w < 0x1_0000_0000_0000_0000

  /** The signed integer with the bits of a word. */
  function AsInt64(w: Word64): int {
    if w < 0x8000_0000_0000_0000 then w else w - W64
  }

  lemma AsInt64Means(w: Word64)
    ensures AsInt64(w) % 0x1_0000_0000_0000_0000 == w && -0x8000_0000_0000_0000 <= AsInt64(w) < 0x8000_0000_0000_0000
  {
  }

  /** `CopyMem`, between different blocks. */
  method CopyMem<T>(dst: array<T>, d: nat, src: array<T>, s: nat, len: nat)
    requires dst != src && d + len <= dst.Length && s + len <= src.Length
    modifies dst
    ensures dst[..] == old(dst[..d]) + src[s..s + len] + old(dst[d + len..])
  {
    for i := 0 to len
      invariant dst[..d] == old(dst[..d]) && dst[d + len..] == old(dst[d + len..])
      invariant dst[d..d + i] == src[s..s + i]
    {
      dst[d + i] := src[s + i];
    }
    assert dst[..] == dst[..d] + dst[d..d + len] + dst[d + len..];
  }
}
