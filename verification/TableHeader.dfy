/** Sealing and checking EFI_TABLE_HEADER (gnu-efi/lib/crc.c): the header in memory is its
    bytes, with HeaderSize at offset 12 and CRC32 at offset 16. */
module TableHeader {
  import opened Crc

  const SIZE_AT: nat := 12
  const CRC_AT: nat := 16
  const HEADER: nat := 24

  function Put32(v: bv32): (b: seq<bv8>)
    ensures |b| == 4
  {
    [(v & 0xFF) as bv8, ((v >> 8) & 0xFF) as bv8, ((v >> 16) & 0xFF) as bv8, ((v >> 24) & 0xFF) as bv8]
  }

  function Join32(b0: bv8, b1: bv8, b2: bv8, b3: bv8): bv32 {
    (b0 as bv32) | ((b1 as bv32) << 8) | ((b2 as bv32) << 16) | ((b3 as bv32) << 24)
  }

  function Get32(m: seq<bv8>, at: nat): bv32
    requires at + 4 <= |m|
  {
    Join32(m[at], m[at + 1], m[at + 2], m[at + 3])
  }

  lemma PutOfJoin(b0: bv8, b1: bv8, b2: bv8, b3: bv8)
    ensures Put32(Join32(b0, b1, b2, b3)) == [b0, b1, b2, b3]
  {
  }

  lemma JoinOfPut(v: bv32)
    ensures v == Join32((v & 0xFF) as bv8, ((v >> 8) & 0xFF) as bv8, ((v >> 16) & 0xFF) as bv8,
                        ((v >> 24) & 0xFF) as bv8)
  {
  }

  function WithCrc(m: seq<bv8>, v: bv32): (m': seq<bv8>)
    requires HEADER <= |m|
    ensures |m'| == |m|
  {
    m[..CRC_AT] + Put32(v) + m[CRC_AT + 4..]
  }

  lemma StoredCrc(m: seq<bv8>, v: bv32)
    requires HEADER <= |m|
    ensures Get32(WithCrc(m, v), CRC_AT) == v
  {
    hide Join32;
    JoinOfPut(v);
  }

  lemma RestoredCrc(m: seq<bv8>, v: bv32)
    requires HEADER <= |m|
    ensures WithCrc(WithCrc(m, v), Get32(m, CRC_AT)) == m
  {
    hide Join32, Put32;
    PutOfJoin(m[CRC_AT], m[CRC_AT + 1], m[CRC_AT + 2], m[CRC_AT + 3]);
    assert m == m[..CRC_AT] + [m[CRC_AT], m[CRC_AT + 1], m[CRC_AT + 2], m[CRC_AT + 3]] + m[CRC_AT + 4..];
  }

  lemma Recleared(m: seq<bv8>, v: bv32, w: bv32)
    requires HEADER <= |m|
    ensures WithCrc(WithCrc(m, v), w) == WithCrc(m, w)
  {
    hide Put32;
  }

  /** What the checksum is taken over: the first `size` bytes with the field cleared. */
  function Covered(m: seq<bv8>, size: nat): seq<bv8>
    requires HEADER <= |m| && size <= |m|
  {
    WithCrc(m, 0)[..size]
  }

  function Sealed(m: seq<bv8>, size: nat): seq<bv8>
    requires HEADER <= |m| && size <= |m|
  {
    WithCrc(m, CrcWord(Covered(m, size)))
  }

  /** The size is rejected before any byte is read. */
  predicate BadSize(maxSize: nat, size: nat) {
    size == 0 || (maxSize != 0 && size > maxSize)
  }

  predicate Passes(m: seq<bv8>, maxSize: nat, size: nat)
    requires HEADER <= |m| && (BadSize(maxSize, size) || size <= |m|)
  {
    !BadSize(maxSize, size) && Get32(m, CRC_AT) == CrcWord(Covered(m, size))
  }

  /** Sealing puts in the one field value that passes. */
  lemma SealedPasses(m: seq<bv8>, maxSize: nat, size: nat)
    requires HEADER <= |m| && size <= |m| && size > 0 && (maxSize == 0 || size <= maxSize)
    ensures Passes(Sealed(m, size), maxSize, size)
    ensures forall v :: Passes(WithCrc(m, v), maxSize, size) ==> WithCrc(m, v) == Sealed(m, size)
  {
    hide WithCrc, Get32, CrcWord;
    forall v ensures Get32(WithCrc(m, v), CRC_AT) == v && WithCrc(WithCrc(m, v), 0) == WithCrc(m, 0) {
      StoredCrc(m, v);
      Recleared(m, v, 0);
    }
  }

  /** Corruption confined to four consecutive bytes, all in the field or all outside it, is
      noticed as soon as it touches the field or the covered bytes. */
  lemma CorruptionFails(m: seq<bv8>, m': seq<bv8>, at: nat, i: nat, maxSize: nat, size: nat)
    requires HEADER <= |m| == |m'| && size <= |m| && Passes(m, maxSize, size)
    requires at <= |m| && forall j :: 0 <= j < |m| && !(at <= j < at + 4) ==> m[j] == m'[j]
    requires forall j :: 0 <= j < |m| && m[j] != m'[j] ==> (CRC_AT <= j < CRC_AT + 4 <==> CRC_AT <= i < CRC_AT + 4)
    requires i < |m| && m[i] != m'[i] && (i < size || CRC_AT <= i < CRC_AT + 4)
    ensures !Passes(m', maxSize, size)
  {
    if CRC_AT <= i < CRC_AT + 4 {
      FieldCorruption(m, m', i, size);
    } else {
      BodyCorruption(m, m', at, i, size);
    }
  }

  lemma FieldCorruption(m: seq<bv8>, m': seq<bv8>, i: nat, size: nat)
    requires HEADER <= |m| == |m'| && size <= |m|
    requires forall j :: 0 <= j < |m| && m[j] != m'[j] ==> CRC_AT <= j < CRC_AT + 4
    requires CRC_AT <= i < CRC_AT + 4 && m[i] != m'[i]
    ensures Covered(m, size) == Covered(m', size) && Get32(m, CRC_AT) != Get32(m', CRC_AT)
  {
    hide Join32, Put32;
    assert m[..CRC_AT] == m'[..CRC_AT] && m[CRC_AT + 4..] == m'[CRC_AT + 4..];
    PutOfJoin(m[CRC_AT], m[CRC_AT + 1], m[CRC_AT + 2], m[CRC_AT + 3]);
    PutOfJoin(m'[CRC_AT], m'[CRC_AT + 1], m'[CRC_AT + 2], m'[CRC_AT + 3]);
  }

  lemma BodyCorruption(m: seq<bv8>, m': seq<bv8>, at: nat, i: nat, size: nat)
    requires HEADER <= |m| == |m'| && i < size <= |m| && at <= |m|
    requires forall j :: 0 <= j < |m| && !(at <= j < at + 4) ==> m[j] == m'[j]
    requires forall j :: CRC_AT <= j < CRC_AT + 4 ==> m[j] == m'[j]
    requires m[i] != m'[i]
    ensures CrcWord(Covered(m, size)) != CrcWord(Covered(m', size))
    ensures Get32(m, CRC_AT) == Get32(m', CRC_AT)
  {
    hide Join32, Put32, CrcWord;
    var a, b := Covered(m, size), Covered(m', size);
    assert forall j :: 0 <= j < size && !(CRC_AT <= j < CRC_AT + 4) ==> a[j] == m[j] && b[j] == m'[j];
    CrcWordDetects(a, b, if at <= size then at else size);
  }

  /** In particular any change to a single byte of the field or of the covered bytes. */
  lemma ByteCorruptionFails(m: seq<bv8>, i: nat, v: bv8, maxSize: nat, size: nat)
    requires HEADER <= |m| && size <= |m| && Passes(m, maxSize, size)
    requires i < |m| && v != m[i] && (i < size || CRC_AT <= i < CRC_AT + 4)
    ensures !Passes(m[i := v], maxSize, size)
  {
    hide Get32, CrcWord, Covered, BadSize;
    CorruptionFails(m, m[i := v], i, i, maxSize, size);
  }

  method StoreCrc(hdr: array<bv8>, v: bv32)
    requires HEADER <= hdr.Length
    modifies hdr
    ensures hdr[..] == WithCrc(old(hdr[..]), v)
  {
    hdr[16], hdr[17] := (v & 0xFF) as bv8, ((v >> 8) & 0xFF) as bv8;
    hdr[18], hdr[19] := ((v >> 16) & 0xFF) as bv8, ((v >> 24) & 0xFF) as bv8;
  }

  method SetCrcAltSize(size: nat, hdr: array<bv8>)
    requires HEADER <= hdr.Length && size <= hdr.Length
    modifies hdr
    ensures hdr[..] == Sealed(old(hdr[..]), size)
  {
    hide WithCrc, CrcWord, WordBits, Crc32;
    ghost var m := hdr[..];
    StoreCrc(hdr, 0);
    assert hdr[..size] == hdr[..][..size];
    var crc := CalculateCrc(hdr, size);
    StoreCrc(hdr, crc);
    Recleared(m, 0, crc);
  }

  method SetCrc(hdr: array<bv8>)
    requires HEADER <= hdr.Length && Get32(hdr[..], SIZE_AT) as nat <= hdr.Length
    modifies hdr
    ensures hdr[..] == Sealed(old(hdr[..]), Get32(old(hdr[..]), SIZE_AT) as nat)
  {
    SetCrcAltSize(Get32(hdr[..], SIZE_AT) as nat, hdr);
  }

  method CheckCrcAltSize(maxSize: nat, size: nat, hdr: array<bv8>) returns (f: bool)
    requires HEADER <= hdr.Length && (BadSize(maxSize, size) || size <= hdr.Length)
    modifies hdr
    ensures hdr[..] == old(hdr[..])
    ensures f == Passes(old(hdr[..]), maxSize, size)
  {
    hide WithCrc, CrcWord, WordBits, Crc32, Get32;
    if size == 0 {
      return false;
    }
    if maxSize != 0 && size > maxSize {
      return false;
    }
    ghost var m := hdr[..];
    var orgCrc := Get32(hdr[..], CRC_AT);
    StoreCrc(hdr, 0);
    assert hdr[..size] == hdr[..][..size];
    var crc := CalculateCrc(hdr, size);
    StoreCrc(hdr, orgCrc);
    RestoredCrc(m, 0);
    f := orgCrc == crc;
  }

  method CheckCrc(maxSize: nat, hdr: array<bv8>) returns (f: bool)
    requires HEADER <= hdr.Length
    requires BadSize(maxSize, Get32(hdr[..], SIZE_AT) as nat) || Get32(hdr[..], SIZE_AT) as nat <= hdr.Length
    modifies hdr
    ensures hdr[..] == old(hdr[..])
    ensures f == Passes(old(hdr[..]), maxSize, Get32(old(hdr[..]), SIZE_AT) as nat)
  {
    f := CheckCrcAltSize(maxSize, Get32(hdr[..], SIZE_AT) as nat, hdr);
  }

  /** Sealing leaves HeaderSize alone, so what `SetCrc` seals, `CheckCrc` accepts. */
  lemma SetThenCheck(m: seq<bv8>, maxSize: nat)
    requires HEADER <= |m|
    requires var size := Get32(m, SIZE_AT) as nat;
             size <= |m| && size > 0 && (maxSize == 0 || size <= maxSize)
    ensures var size := Get32(m, SIZE_AT);
            var s := Sealed(m, size as nat);
            Get32(s, SIZE_AT) == size && Passes(s, maxSize, size as nat)
  {
    hide Join32, Put32, CrcWord, Passes, Covered;
    var size := Get32(m, SIZE_AT) as nat;
    var s := Sealed(m, size);
    assert forall j :: 0 <= j < CRC_AT ==> s[j] == m[j];
    SealedPasses(m, maxSize, size);
  }

  // ----- The header, byte by byte -----

  /** What the checksum is taken over: the first bytes with those from 16 to 19 read as zeros. */
  lemma CoveredMeans(m: seq<bv8>, size: nat)
    requires 24 <= |m| && size <= |m|
    ensures |Covered(m, size)| == size
    ensures forall j :: 0 <= j < size ==> Covered(m, size)[j] == if 16 <= j < 20 then 0 else m[j]
  {
    ZeroBytes();
  }

  lemma ZeroBytes()
    ensures Put32(0) == [0, 0, 0, 0]
  {
  }

  /** Sealing writes the bytes from 16 to 19, and what it writes, lowest bit first, is the CRC-32. */
  lemma SealedMeans(m: seq<bv8>, size: nat, x: seq<bv8>)
    requires 24 <= |m| && size <= |m|
    requires |x| == size && forall j :: 0 <= j < size ==> x[j] == if 16 <= j < 20 then 0 else m[j]
    ensures var s := Sealed(m, size);
            && |s| == |m| && (forall j :: 0 <= j < |m| && !(16 <= j < 20) ==> s[j] == m[j])
            && ByteBits(s[16]) + ByteBits(s[17]) + ByteBits(s[18]) + ByteBits(s[19]) == Crc32(x)
  {
    hide CrcWord, Crc32, ByteBits, Covered, Put32, LowByte, OffByte;
    CoveredMeans(m, size);
    assert Covered(m, size) == x;
    CrcWordIsCrc32(x);
    BytesOfWord(CrcWord(x));
    PutBytes(CrcWord(x));
  }

  /** A header passes exactly when the size is not zero nor above a maximum that is not zero, and the
      bytes from 16 to 19 are that CRC-32. */
  lemma PassesMeans(m: seq<bv8>, maxSize: nat, size: nat, x: seq<bv8>)
    requires 24 <= |m| && size <= |m|
    requires |x| == size && forall j :: 0 <= j < size ==> x[j] == if 16 <= j < 20 then 0 else m[j]
    ensures Passes(m, maxSize, size) <==>
            && size != 0 && (maxSize == 0 || size <= maxSize)
            && ByteBits(m[16]) + ByteBits(m[17]) + ByteBits(m[18]) + ByteBits(m[19]) == Crc32(x)
  {
    hide CrcWord, Crc32, ByteBits, Covered, Join32, Put32, LowByte, OffByte;
    CoveredMeans(m, size);
    assert Covered(m, size) == x;
    CrcWordIsCrc32(x);
    var w := Get32(m, 16);
    PutOfJoin(m[16], m[17], m[18], m[19]);
    BytesOfWord(w);
    PutBytes(w);
    if WordBits(w) == Crc32(x) {
      WordBitsInjective(w, CrcWord(x));
    }
  }

  /** The size of the header is in the four bytes from 12, lowest byte first. */
  lemma SizeMeans(m: seq<bv8>)
    requires 24 <= |m|
    ensures WordBits(Get32(m, SIZE_AT)) == ByteBits(m[12]) + ByteBits(m[13]) + ByteBits(m[14]) + ByteBits(m[15])
  {
    hide Join32, ByteBits, Put32, LowByte, OffByte;
    PutOfJoin(m[12], m[13], m[14], m[15]);
    BytesOfWord(Get32(m, 12));
    PutBytes(Get32(m, 12));
  }

  lemma PutBytes(w: bv32)
    ensures Put32(w)
            == [LowByte(w), LowByte(OffByte(w)), LowByte(OffByte(OffByte(w))), LowByte(OffByte(OffByte(OffByte(w))))]
  {
  }
}
