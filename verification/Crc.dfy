/** The CRC-32 of gnu-efi/lib/crc.c, against the bit-serial CRC of section 8 of RFC 1952. */
module Crc {

  // ----- The reference: a 32-bit register, lowest bit first, fed one message bit at a time -----

  type Register = c: seq<bool> | |c| == 32 witness seq(32, _ => false)

  /** Bit `i` of the register stands for the power `31 - i` of the generator polynomial. */
  predicate Generator(i: nat) {
    31 - i in {0, 1, 2, 4, 5, 7, 8, 10, 11, 12, 16, 22, 23, 26}
  }

  function Round(c: Register): (c': Register)
  {
    seq(32, i requires 0 <= i < 32 => (i < 31 && c[i + 1]) != (c[0] && Generator(i)))
  }

  function FeedBit(c: Register, b: bool): Register {
    Round(c[0 := c[0] != b])
  }

  function FeedBits(c: Register, bits: seq<bool>): Register
    decreases |bits|
  {
    if bits == [] then c else FeedBits(FeedBit(c, bits[0]), bits[1..])
  }

  function Zeros(n: nat): (z: seq<bool>)
    ensures |z| == n && forall i :: 0 <= i < n ==> !z[i]
  {
    seq(n, _ => false)
  }

  function Ones(n: nat): (z: seq<bool>)
    ensures |z| == n && forall i :: 0 <= i < n ==> z[i]
  {
    seq(n, _ => true)
  }

  function Xor(a: seq<bool>, b: seq<bool>): (c: seq<bool>)
    requires |a| == |b|
    ensures |c| == |a| && forall i :: 0 <= i < |a| ==> c[i] == (a[i] != b[i])
  {
    seq(|a|, i requires 0 <= i < |a| => a[i] != b[i])
  }

  predicate Odd(w: bv32) {
    w & 1 == 1
  }

  function Half(w: bv32): bv32 {
    w >> 1
  }

  /** The `n` low bits of a word, lowest first. */
  function LowBits(n: nat, w: bv32): (bits: seq<bool>)
    ensures |bits| == n
  {
    if n == 0 then [] else [Odd(w)] + LowBits(n - 1, Half(w))
  }

  function ByteBits(b: bv8): (bits: seq<bool>)
    ensures |bits| == 8
  {
    LowBits(8, b as bv32)
  }

  function Bits(m: seq<bv8>): (bits: seq<bool>)
    ensures |bits| == 8 * |m|
  {
    if m == [] then [] else ByteBits(m[0]) + Bits(m[1..])
  }

  function Crc32(m: seq<bv8>): Register {
    Xor(FeedBits(Ones(32), Bits(m)), Ones(32))
  }

  /** The running state composes over concatenation. */
  lemma {:induction false} FeedBitsConcat(c: Register, a: seq<bool>, b: seq<bool>)
    ensures FeedBits(c, a + b) == FeedBits(FeedBits(c, a), b)
    decreases |a|
  {
    if a == [] {
      assert a + b == b;
    } else {
      assert (a + b)[0] == a[0] && (a + b)[1..] == a[1..] + b;
      FeedBitsConcat(FeedBit(c, a[0]), a[1..], b);
    }
  }

  lemma {:induction false} BitsConcat(a: seq<bv8>, b: seq<bv8>)
    ensures Bits(a + b) == Bits(a) + Bits(b)
  {
    if a == [] {
      assert a + b == b;
    } else {
      assert (a + b)[1..] == a[1..] + b;
      BitsConcat(a[1..], b);
    }
  }

  // ----- Error detection -----

  /** Feeding a bit is injective in the state. */
  lemma FeedBitInjective(x: Register, y: Register, b: bool)
    requires FeedBit(x, b) == FeedBit(y, b)
    ensures x == y
  {
    var x', y' := FeedBit(x, b), FeedBit(y, b);
    assert x'[31] == (x[0] != b) && y'[31] == (y[0] != b);
    forall i | 0 < i < 32 ensures x[i] == y[i] {
      assert x'[i - 1] == y'[i - 1];
    }
  }

  /** States that differ still differ after any common continuation. */
  lemma {:induction false} FeedBitsInjective(x: Register, y: Register, bits: seq<bool>)
    requires FeedBits(x, bits) == FeedBits(y, bits)
    ensures x == y
    decreases |bits|
  {
    if bits == [] {
    } else {
      FeedBitsInjective(FeedBit(x, bits[0]), FeedBit(y, bits[0]), bits[1..]);
      FeedBitInjective(x, y, bits[0]);
    }
  }

  predicate AgreeAbove(n: nat, x: Register, y: Register) {
    forall i :: n <= i < 32 ==> x[i] == y[i]
  }

  /** Going back over one bit, whatever the two bits were, loses one bit of agreement. */
  lemma AgreeBack(n: nat, x: Register, y: Register, b: bool, c: bool)
    requires n < 32 && AgreeAbove(n, FeedBit(x, b), FeedBit(y, c))
    ensures AgreeAbove(n + 1, x, y)
  {
    var x', y' := FeedBit(x, b), FeedBit(y, c);
    assert x'[31] == y'[31];
    forall i | n + 1 <= i < 32 ensures x[i] == y[i] {
      assert x'[i - 1] == y'[i - 1];
    }
  }

  lemma {:induction false} AgreeBefore(x: Register, y: Register, v: seq<bool>, w: seq<bool>)
    requires |v| == |w| <= 32 && FeedBits(x, v) == FeedBits(y, w)
    ensures AgreeAbove(|v|, x, y)
    decreases |v|
  {
    if v == [] {
    } else {
      AgreeBefore(FeedBit(x, v[0]), FeedBit(y, w[0]), v[1..], w[1..]);
      AgreeBack(|v| - 1, x, y, v[0], w[0]);
    }
  }

  /** From one state, two different windows of the same length, at most 32 bits, lead to
      different states: the first differing bit decides the top bit of the state. */
  lemma {:induction false} WindowInjective(s: Register, v: seq<bool>, w: seq<bool>)
    requires |v| == |w| <= 32 && FeedBits(s, v) == FeedBits(s, w)
    ensures v == w
    decreases |v|
  {
    if v == [] {
    } else {
      var x, y := FeedBit(s, v[0]), FeedBit(s, w[0]);
      AgreeBefore(x, y, v[1..], w[1..]);
      assert x[31] == (s[0] != v[0]) && y[31] == (s[0] != w[0]);
      WindowInjective(x, v[1..], w[1..]);
      assert v == [v[0]] + v[1..] && w == [w[0]] + w[1..];
    }
  }

  lemma XorInjective(a: seq<bool>, b: seq<bool>, s: seq<bool>)
    requires |a| == |b| == |s| && Xor(a, s) == Xor(b, s)
    ensures a == b
  {
    forall i | 0 <= i < |a| ensures a[i] == b[i] {
      assert Xor(a, s)[i] == Xor(b, s)[i];
    }
  }

  lemma FeedThrough(c: Register, pre: seq<bool>, v: seq<bool>, post: seq<bool>)
    ensures FeedBits(c, pre + v + post) == FeedBits(FeedBits(FeedBits(c, pre), v), post)
  {
    FeedBitsConcat(c, pre + v, post);
    FeedBitsConcat(c, pre, v);
  }

  /** Bit strings that differ only inside one window of at most 32 consecutive bits lead to
      different states. */
  lemma BurstDetected(c: Register, pre: seq<bool>, v: seq<bool>, w: seq<bool>, post: seq<bool>)
    requires |v| == |w| <= 32 && v != w
    ensures FeedBits(c, pre + v + post) != FeedBits(c, pre + w + post)
  {
    if FeedBits(c, pre + v + post) == FeedBits(c, pre + w + post) {
      var s := FeedBits(c, pre);
      FeedThrough(c, pre, v, post);
      FeedThrough(c, pre, w, post);
      FeedBitsInjective(FeedBits(s, v), FeedBits(s, w), post);
      WindowInjective(s, v, w);
    }
  }

  lemma {:induction false} BitsInjective(a: seq<bv8>, b: seq<bv8>)
    requires Bits(a) == Bits(b)
    ensures a == b
  {
    if a == [] || b == [] {
    } else {
      assert Bits(a)[..8] == ByteBits(a[0]) && Bits(b)[..8] == ByteBits(b[0]);
      assert Bits(a)[8..] == Bits(a[1..]) && Bits(b)[8..] == Bits(b[1..]);
      ByteBitsInjective(a[0], b[0]);
      BitsInjective(a[1..], b[1..]);
    }
  }

  lemma Bits3(a: seq<bv8>, b: seq<bv8>, c: seq<bv8>)
    ensures Bits(a + b + c) == Bits(a) + Bits(b) + Bits(c)
  {
    BitsConcat(a + b, c);
    BitsConcat(a, b);
  }

  lemma SliceJoin(a: seq<bv8>, i: nat, j: nat)
    requires i <= j <= |a|
    ensures a == a[..i] + a[i..j] + a[j..]
  {
  }

  /** Messages of one length that differ only inside four consecutive bytes never share a CRC. */
  lemma WindowDetected(a: seq<bv8>, b: seq<bv8>, at: nat)
    requires |a| == |b| && at <= |a|
    requires forall i :: 0 <= i < |a| && !(at <= i < at + 4) ==> a[i] == b[i]
    requires a != b
    ensures Crc32(a) != Crc32(b)
  {
    var e := if at + 4 <= |a| then at + 4 else |a|;
    var pre, v, w, post := a[..at], a[at..e], b[at..e], a[e..];
    SliceJoin(a, at, e);
    SliceJoin(b, at, e);
    assert b[..at] == pre && b[e..] == post;
    Bits3(pre, v, post);
    Bits3(pre, w, post);
    if Bits(v) == Bits(w) { BitsInjective(v, w); }
    BurstDetected(Ones(32), Bits(pre), Bits(v), Bits(w), Bits(post));
    if Crc32(a) == Crc32(b) {
      XorInjective(FeedBits(Ones(32), Bits(a)), FeedBits(Ones(32), Bits(b)), Ones(32));
    }
  }

  // ----- Words and their bits -----

  function Shift(n: nat, w: bv32): bv32 {
    if n == 0 then w else Shift(n - 1, Half(w))
  }

  lemma {:induction false} LowBitsSplit(m: nat, n: nat, w: bv32)
    ensures LowBits(m + n, w) == LowBits(m, w) + LowBits(n, Shift(m, w))
  {
    hide Odd, Half;
    if m == 0 {
    } else {
      LowBitsSplit(m - 1, n, Half(w));
    }
  }

  lemma ZeroBit()
    ensures !Odd(0) && Half(0) == 0
  {
  }

  lemma {:induction false} LowBitsOfZero(n: nat)
    ensures LowBits(n, 0) == Zeros(n)
  {
    hide Odd, Half;
    if n == 0 {
    } else {
      ZeroBit();
      LowBitsOfZero(n - 1);
    }
  }

  function XorWord(a: bv32, b: bv32): bv32 {
    a ^ b
  }

  lemma XorOdd(a: bv32, b: bv32)
    ensures Odd(XorWord(a, b)) == (Odd(a) != Odd(b))
  {
  }

  lemma XorHalf(a: bv32, b: bv32)
    ensures Half(XorWord(a, b)) == XorWord(Half(a), Half(b))
  {
  }

  lemma {:induction false} LowBitsXor(n: nat, a: bv32, b: bv32)
    ensures LowBits(n, XorWord(a, b)) == Xor(LowBits(n, a), LowBits(n, b))
  {
    hide Odd, Half, XorWord, Xor;
    if n == 0 {
      XorNothing();
    } else {
      XorOdd(a, b);
      XorHalf(a, b);
      LowBitsXor(n - 1, Half(a), Half(b));
      XorCons(Odd(a), Odd(b), LowBits(n - 1, Half(a)), LowBits(n - 1, Half(b)));
    }
  }

  lemma XorNothing()
    ensures Xor([], []) == []
  {
  }

  lemma XorCons(x: bool, y: bool, a: seq<bool>, b: seq<bool>)
    requires |a| == |b|
    ensures Xor([x] + a, [y] + b) == [x != y] + Xor(a, b)
  {
  }

  lemma {:induction false} ShiftHalf(n: nat, w: bv32)
    ensures Shift(n, Half(w)) == Half(Shift(n, w))
  {
    hide Half;
    if n == 0 {
    } else {
      ShiftHalf(n - 1, Half(w));
    }
  }

  lemma Shift2(n: nat, w: bv32)
    ensures Shift(n + 2, w) == Shift(n, w >> 2)
  {
    assert Half(Half(w)) == w >> 2;
  }

  lemma Shift4(n: nat, w: bv32)
    ensures Shift(n + 4, w) == Shift(n, w >> 4)
  {
    hide Shift;
    Shift2(n + 2, w);
    Shift2(n, w >> 2);
    assert (w >> 2) >> 2 == w >> 4;
  }

  lemma Shift8(w: bv32)
    ensures Shift(8, w) == w >> 8
  {
    hide Half;
    Shift4(4, w);
    Shift4(0, w >> 4);
    assert (w >> 4) >> 4 == w >> 8;
  }

  lemma Rejoin(v: bv32, w: bv32)
    requires Half(v) == Half(w) && Odd(v) == Odd(w)
    ensures v == w
  {
  }

  lemma {:induction false} LowBitsInjective(n: nat, v: bv32, w: bv32)
    requires LowBits(n, v) == LowBits(n, w) && Shift(n, v) == Shift(n, w)
    ensures v == w
  {
    hide Odd, Half;
    if n == 0 {
    } else {
      assert LowBits(n, v)[0] == LowBits(n, w)[0];
      assert LowBits(n, v)[1..] == LowBits(n - 1, Half(v)) && LowBits(n, w)[1..] == LowBits(n - 1, Half(w));
      LowBitsInjective(n - 1, Half(v), Half(w));
      Rejoin(v, w);
    }
  }

  lemma ByteFits(b: bv8)
    ensures Shift(8, b as bv32) == 0
  {
    hide Shift;
    Shift8(b as bv32);
    assert (b as bv32) >> 8 == 0;
  }

  lemma Widen(x: bv8, y: bv8)
    requires x as bv32 == y as bv32
    ensures x == y
  {
  }

  lemma ByteBitsInjective(x: bv8, y: bv8)
    requires ByteBits(x) == ByteBits(y)
    ensures x == y
  {
    hide LowBits;
    ByteFits(x);
    ByteFits(y);
    LowBitsInjective(8, x as bv32, y as bv32);
    Widen(x, y);
  }

  lemma {:induction false} ShiftSplit(m: nat, n: nat, w: bv32)
    ensures Shift(m + n, w) == Shift(n, Shift(m, w))
  {
    hide Half;
    if m == 0 {
    } else {
      ShiftSplit(m - 1, n, Half(w));
    }
  }

  lemma Shift32(w: bv32)
    ensures Shift(32, w) == 0
  {
    hide Shift;
    ShiftSplit(8, 24, w);
    ShiftSplit(8, 16, w >> 8);
    ShiftSplit(8, 8, (w >> 8) >> 8);
    Shift8(w);
    Shift8(w >> 8);
    Shift8((w >> 8) >> 8);
    Shift8(((w >> 8) >> 8) >> 8);
    assert (((w >> 8) >> 8) >> 8) >> 8 == 0;
  }

  function WordBits(w: bv32): Register {
    LowBits(32, w)
  }

  /** Words are told apart by their bits. */
  lemma WordBitsInjective(v: bv32, w: bv32)
    requires WordBits(v) == WordBits(w)
    ensures v == w
  {
    hide LowBits;
    Shift32(v);
    Shift32(w);
    LowBitsInjective(32, v, w);
  }

  lemma {:induction false} ShiftOfZero(n: nat)
    ensures Shift(n, 0) == 0
  {
    hide Half;
    if n == 0 {
    } else {
      ZeroBit();
      ShiftOfZero(n - 1);
    }
  }

  /** Shifting a word drops low bits and brings zeros in at the top. */
  lemma WordBitsShift(n: nat, w: bv32)
    requires n <= 32
    ensures WordBits(Shift(n, w)) == WordBits(w)[n..] + Zeros(n)
  {
    hide LowBits, Shift;
    LowBitsSplit(n, 32, w);
    LowBitsSplit(32, n, w);
    Shift32(w);
    LowBitsOfZero(n);
    var a := LowBits(n + 32, w);
    assert a == LowBits(32 + n, w);
    assert a[n..] == WordBits(Shift(n, w)) && a[n..] == WordBits(w)[n..] + Zeros(n);
  }

  /** A word below 256 has zeros above its low byte. */
  lemma WordBitsOfByte(b: bv8)
    ensures WordBits(b as bv32) == ByteBits(b) + Zeros(24)
  {
    hide LowBits;
    LowBitsSplit(8, 24, b as bv32);
    ByteFits(b);
    LowBitsOfZero(24);
  }

  predicate SameUnder(m: bv32, v: bv32, w: bv32) {
    v & m == w & m
  }

  predicate LowOnes(n: nat, m: bv32) {
    n == 0 || (Odd(m) && LowOnes(n - 1, Half(m)))
  }

  lemma SameOdd(m: bv32, v: bv32, w: bv32)
    requires Odd(m) && SameUnder(m, v, w)
    ensures Odd(v) == Odd(w)
  {
  }

  lemma SameHalf(m: bv32, v: bv32, w: bv32)
    requires SameUnder(m, v, w)
    ensures SameUnder(Half(m), Half(v), Half(w))
  {
  }

  lemma {:induction false} LowBitsSame(n: nat, m: bv32, v: bv32, w: bv32)
    requires LowOnes(n, m) && SameUnder(m, v, w)
    ensures LowBits(n, v) == LowBits(n, w)
  {
    hide Odd, Half, SameUnder;
    if n == 0 {
    } else {
      SameOdd(m, v, w);
      SameHalf(m, v, w);
      LowBitsSame(n - 1, Half(m), Half(v), Half(w));
    }
  }

  lemma LowOnes8()
    ensures LowOnes(8, 0xFF)
  {
    assert LowOnes(2, 0x3);
    assert LowOnes(4, 0xF);
    assert LowOnes(6, 0x3F);
  }

  // ----- The table -----

  const POLY: bv32 := 0xEDB8_8320
  const ALL_ONES: bv32 := 0xFFFF_FFFF

  function CrcTable(i: bv8): bv32 {
    match i & 0xF0
    case 0x00 => (
      match i & 0x0F
      case 0x0 => 0x00000000 case 0x1 => 0x77073096 case 0x2 => 0xEE0E612C case 0x3 => 0x990951BA
      case 0x4 => 0x076DC419 case 0x5 => 0x706AF48F case 0x6 => 0xE963A535 case 0x7 => 0x9E6495A3
      case 0x8 => 0x0EDB8832 case 0x9 => 0x79DCB8A4 case 0xA => 0xE0D5E91E case 0xB => 0x97D2D988
      case 0xC => 0x09B64C2B case 0xD => 0x7EB17CBD case 0xE => 0xE7B82D07 case _ => 0x90BF1D91)
    case 0x10 => (
      match i & 0x0F
      case 0x0 => 0x1DB71064 case 0x1 => 0x6AB020F2 case 0x2 => 0xF3B97148 case 0x3 => 0x84BE41DE
      case 0x4 => 0x1ADAD47D case 0x5 => 0x6DDDE4EB case 0x6 => 0xF4D4B551 case 0x7 => 0x83D385C7
      case 0x8 => 0x136C9856 case 0x9 => 0x646BA8C0 case 0xA => 0xFD62F97A case 0xB => 0x8A65C9EC
      case 0xC => 0x14015C4F case 0xD => 0x63066CD9 case 0xE => 0xFA0F3D63 case _ => 0x8D080DF5)
    case 0x20 => (
      match i & 0x0F
      case 0x0 => 0x3B6E20C8 case 0x1 => 0x4C69105E case 0x2 => 0xD56041E4 case 0x3 => 0xA2677172
      case 0x4 => 0x3C03E4D1 case 0x5 => 0x4B04D447 case 0x6 => 0xD20D85FD case 0x7 => 0xA50AB56B
      case 0x8 => 0x35B5A8FA case 0x9 => 0x42B2986C case 0xA => 0xDBBBC9D6 case 0xB => 0xACBCF940
      case 0xC => 0x32D86CE3 case 0xD => 0x45DF5C75 case 0xE => 0xDCD60DCF case _ => 0xABD13D59)
    case 0x30 => (
      match i & 0x0F
      case 0x0 => 0x26D930AC case 0x1 => 0x51DE003A case 0x2 => 0xC8D75180 case 0x3 => 0xBFD06116
      case 0x4 => 0x21B4F4B5 case 0x5 => 0x56B3C423 case 0x6 => 0xCFBA9599 case 0x7 => 0xB8BDA50F
      case 0x8 => 0x2802B89E case 0x9 => 0x5F058808 case 0xA => 0xC60CD9B2 case 0xB => 0xB10BE924
      case 0xC => 0x2F6F7C87 case 0xD => 0x58684C11 case 0xE => 0xC1611DAB case _ => 0xB6662D3D)
    case 0x40 => (
      match i & 0x0F
      case 0x0 => 0x76DC4190 case 0x1 => 0x01DB7106 case 0x2 => 0x98D220BC case 0x3 => 0xEFD5102A
      case 0x4 => 0x71B18589 case 0x5 => 0x06B6B51F case 0x6 => 0x9FBFE4A5 case 0x7 => 0xE8B8D433
      case 0x8 => 0x7807C9A2 case 0x9 => 0x0F00F934 case 0xA => 0x9609A88E case 0xB => 0xE10E9818
      case 0xC => 0x7F6A0DBB case 0xD => 0x086D3D2D case 0xE => 0x91646C97 case _ => 0xE6635C01)
    case 0x50 => (
      match i & 0x0F
      case 0x0 => 0x6B6B51F4 case 0x1 => 0x1C6C6162 case 0x2 => 0x856530D8 case 0x3 => 0xF262004E
      case 0x4 => 0x6C0695ED case 0x5 => 0x1B01A57B case 0x6 => 0x8208F4C1 case 0x7 => 0xF50FC457
      case 0x8 => 0x65B0D9C6 case 0x9 => 0x12B7E950 case 0xA => 0x8BBEB8EA case 0xB => 0xFCB9887C
      case 0xC => 0x62DD1DDF case 0xD => 0x15DA2D49 case 0xE => 0x8CD37CF3 case _ => 0xFBD44C65)
    case 0x60 => (
      match i & 0x0F
      case 0x0 => 0x4DB26158 case 0x1 => 0x3AB551CE case 0x2 => 0xA3BC0074 case 0x3 => 0xD4BB30E2
      case 0x4 => 0x4ADFA541 case 0x5 => 0x3DD895D7 case 0x6 => 0xA4D1C46D case 0x7 => 0xD3D6F4FB
      case 0x8 => 0x4369E96A case 0x9 => 0x346ED9FC case 0xA => 0xAD678846 case 0xB => 0xDA60B8D0
      case 0xC => 0x44042D73 case 0xD => 0x33031DE5 case 0xE => 0xAA0A4C5F case _ => 0xDD0D7CC9)
    case 0x70 => (
      match i & 0x0F
      case 0x0 => 0x5005713C case 0x1 => 0x270241AA case 0x2 => 0xBE0B1010 case 0x3 => 0xC90C2086
      case 0x4 => 0x5768B525 case 0x5 => 0x206F85B3 case 0x6 => 0xB966D409 case 0x7 => 0xCE61E49F
      case 0x8 => 0x5EDEF90E case 0x9 => 0x29D9C998 case 0xA => 0xB0D09822 case 0xB => 0xC7D7A8B4
      case 0xC => 0x59B33D17 case 0xD => 0x2EB40D81 case 0xE => 0xB7BD5C3B case _ => 0xC0BA6CAD)
    case 0x80 => (
      match i & 0x0F
      case 0x0 => 0xEDB88320 case 0x1 => 0x9ABFB3B6 case 0x2 => 0x03B6E20C case 0x3 => 0x74B1D29A
      case 0x4 => 0xEAD54739 case 0x5 => 0x9DD277AF case 0x6 => 0x04DB2615 case 0x7 => 0x73DC1683
      case 0x8 => 0xE3630B12 case 0x9 => 0x94643B84 case 0xA => 0x0D6D6A3E case 0xB => 0x7A6A5AA8
      case 0xC => 0xE40ECF0B case 0xD => 0x9309FF9D case 0xE => 0x0A00AE27 case _ => 0x7D079EB1)
    case 0x90 => (
      match i & 0x0F
      case 0x0 => 0xF00F9344 case 0x1 => 0x8708A3D2 case 0x2 => 0x1E01F268 case 0x3 => 0x6906C2FE
      case 0x4 => 0xF762575D case 0x5 => 0x806567CB case 0x6 => 0x196C3671 case 0x7 => 0x6E6B06E7
      case 0x8 => 0xFED41B76 case 0x9 => 0x89D32BE0 case 0xA => 0x10DA7A5A case 0xB => 0x67DD4ACC
      case 0xC => 0xF9B9DF6F case 0xD => 0x8EBEEFF9 case 0xE => 0x17B7BE43 case _ => 0x60B08ED5)
    case 0xA0 => (
      match i & 0x0F
      case 0x0 => 0xD6D6A3E8 case 0x1 => 0xA1D1937E case 0x2 => 0x38D8C2C4 case 0x3 => 0x4FDFF252
      case 0x4 => 0xD1BB67F1 case 0x5 => 0xA6BC5767 case 0x6 => 0x3FB506DD case 0x7 => 0x48B2364B
      case 0x8 => 0xD80D2BDA case 0x9 => 0xAF0A1B4C case 0xA => 0x36034AF6 case 0xB => 0x41047A60
      case 0xC => 0xDF60EFC3 case 0xD => 0xA867DF55 case 0xE => 0x316E8EEF case _ => 0x4669BE79)
    case 0xB0 => (
      match i & 0x0F
      case 0x0 => 0xCB61B38C case 0x1 => 0xBC66831A case 0x2 => 0x256FD2A0 case 0x3 => 0x5268E236
      case 0x4 => 0xCC0C7795 case 0x5 => 0xBB0B4703 case 0x6 => 0x220216B9 case 0x7 => 0x5505262F
      case 0x8 => 0xC5BA3BBE case 0x9 => 0xB2BD0B28 case 0xA => 0x2BB45A92 case 0xB => 0x5CB36A04
      case 0xC => 0xC2D7FFA7 case 0xD => 0xB5D0CF31 case 0xE => 0x2CD99E8B case _ => 0x5BDEAE1D)
    case 0xC0 => (
      match i & 0x0F
      case 0x0 => 0x9B64C2B0 case 0x1 => 0xEC63F226 case 0x2 => 0x756AA39C case 0x3 => 0x026D930A
      case 0x4 => 0x9C0906A9 case 0x5 => 0xEB0E363F case 0x6 => 0x72076785 case 0x7 => 0x05005713
      case 0x8 => 0x95BF4A82 case 0x9 => 0xE2B87A14 case 0xA => 0x7BB12BAE case 0xB => 0x0CB61B38
      case 0xC => 0x92D28E9B case 0xD => 0xE5D5BE0D case 0xE => 0x7CDCEFB7 case _ => 0x0BDBDF21)
    case 0xD0 => (
      match i & 0x0F
      case 0x0 => 0x86D3D2D4 case 0x1 => 0xF1D4E242 case 0x2 => 0x68DDB3F8 case 0x3 => 0x1FDA836E
      case 0x4 => 0x81BE16CD case 0x5 => 0xF6B9265B case 0x6 => 0x6FB077E1 case 0x7 => 0x18B74777
      case 0x8 => 0x88085AE6 case 0x9 => 0xFF0F6A70 case 0xA => 0x66063BCA case 0xB => 0x11010B5C
      case 0xC => 0x8F659EFF case 0xD => 0xF862AE69 case 0xE => 0x616BFFD3 case _ => 0x166CCF45)
    case 0xE0 => (
      match i & 0x0F
      case 0x0 => 0xA00AE278 case 0x1 => 0xD70DD2EE case 0x2 => 0x4E048354 case 0x3 => 0x3903B3C2
      case 0x4 => 0xA7672661 case 0x5 => 0xD06016F7 case 0x6 => 0x4969474D case 0x7 => 0x3E6E77DB
      case 0x8 => 0xAED16A4A case 0x9 => 0xD9D65ADC case 0xA => 0x40DF0B66 case 0xB => 0x37D83BF0
      case 0xC => 0xA9BCAE53 case 0xD => 0xDEBB9EC5 case 0xE => 0x47B2CF7F case _ => 0x30B5FFE9)
    case _ => (
      match i & 0x0F
      case 0x0 => 0xBDBDF21C case 0x1 => 0xCABAC28A case 0x2 => 0x53B39330 case 0x3 => 0x24B4A3A6
      case 0x4 => 0xBAD03605 case 0x5 => 0xCDD70693 case 0x6 => 0x54DE5729 case 0x7 => 0x23D967BF
      case 0x8 => 0xB3667A2E case 0x9 => 0xC4614AB8 case 0xA => 0x5D681B02 case 0xB => 0x2A6F2B94
      case 0xC => 0xB40BBE37 case 0xD => 0xC30C8EA1 case 0xE => 0x5A05DF1B case _ => 0x2D02EF8D)
  }

  function Feedback(b: bool): bv32 {
    if b then POLY else 0
  }

  /** A round of the reference on a word. */
  function RoundWord(c: bv32): bv32 {
    XorWord(Half(c), Feedback(Odd(c)))
  }

  function RoundWord8(c: bv32): bv32 {
    RoundWord(RoundWord(RoundWord(RoundWord(RoundWord(RoundWord(RoundWord(RoundWord(c))))))))
  }

  lemma TableRow0(i: bv8)
    requires i & 0xF0 == 0x00
    ensures CrcTable(i) == RoundWord8(i as bv32)
  {
    match i
    case 0x00 => case 0x01 => case 0x02 => case 0x03 => case 0x04 => case 0x05 => case 0x06 => case 0x07 =>
    case 0x08 => case 0x09 => case 0x0A => case 0x0B => case 0x0C => case 0x0D => case 0x0E => case 0x0F =>
    case _ =>
  }

  lemma TableRow1(i: bv8)
    requires i & 0xF0 == 0x10
    ensures CrcTable(i) == RoundWord8(i as bv32)
  {
    match i
    case 0x10 => case 0x11 => case 0x12 => case 0x13 => case 0x14 => case 0x15 => case 0x16 => case 0x17 =>
    case 0x18 => case 0x19 => case 0x1A => case 0x1B => case 0x1C => case 0x1D => case 0x1E => case 0x1F =>
    case _ =>
  }

  lemma TableRow2(i: bv8)
    requires i & 0xF0 == 0x20
    ensures CrcTable(i) == RoundWord8(i as bv32)
  {
    match i
    case 0x20 => case 0x21 => case 0x22 => case 0x23 => case 0x24 => case 0x25 => case 0x26 => case 0x27 =>
    case 0x28 => case 0x29 => case 0x2A => case 0x2B => case 0x2C => case 0x2D => case 0x2E => case 0x2F =>
    case _ =>
  }

  lemma TableRow3(i: bv8)
    requires i & 0xF0 == 0x30
    ensures CrcTable(i) == RoundWord8(i as bv32)
  {
    match i
    case 0x30 => case 0x31 => case 0x32 => case 0x33 => case 0x34 => case 0x35 => case 0x36 => case 0x37 =>
    case 0x38 => case 0x39 => case 0x3A => case 0x3B => case 0x3C => case 0x3D => case 0x3E => case 0x3F =>
    case _ =>
  }

  lemma TableRow4(i: bv8)
    requires i & 0xF0 == 0x40
    ensures CrcTable(i) == RoundWord8(i as bv32)
  {
    match i
    case 0x40 => case 0x41 => case 0x42 => case 0x43 => case 0x44 => case 0x45 => case 0x46 => case 0x47 =>
    case 0x48 => case 0x49 => case 0x4A => case 0x4B => case 0x4C => case 0x4D => case 0x4E => case 0x4F =>
    case _ =>
  }

  lemma TableRow5(i: bv8)
    requires i & 0xF0 == 0x50
    ensures CrcTable(i) == RoundWord8(i as bv32)
  {
    match i
    case 0x50 => case 0x51 => case 0x52 => case 0x53 => case 0x54 => case 0x55 => case 0x56 => case 0x57 =>
    case 0x58 => case 0x59 => case 0x5A => case 0x5B => case 0x5C => case 0x5D => case 0x5E => case 0x5F =>
    case _ =>
  }

  lemma TableRow6(i: bv8)
    requires i & 0xF0 == 0x60
    ensures CrcTable(i) == RoundWord8(i as bv32)
  {
    match i
    case 0x60 => case 0x61 => case 0x62 => case 0x63 => case 0x64 => case 0x65 => case 0x66 => case 0x67 =>
    case 0x68 => case 0x69 => case 0x6A => case 0x6B => case 0x6C => case 0x6D => case 0x6E => case 0x6F =>
    case _ =>
  }

  lemma TableRow7(i: bv8)
    requires i & 0xF0 == 0x70
    ensures CrcTable(i) == RoundWord8(i as bv32)
  {
    match i
    case 0x70 => case 0x71 => case 0x72 => case 0x73 => case 0x74 => case 0x75 => case 0x76 => case 0x77 =>
    case 0x78 => case 0x79 => case 0x7A => case 0x7B => case 0x7C => case 0x7D => case 0x7E => case 0x7F =>
    case _ =>
  }

  lemma TableRow8(i: bv8)
    requires i & 0xF0 == 0x80
    ensures CrcTable(i) == RoundWord8(i as bv32)
  {
    match i
    case 0x80 => case 0x81 => case 0x82 => case 0x83 => case 0x84 => case 0x85 => case 0x86 => case 0x87 =>
    case 0x88 => case 0x89 => case 0x8A => case 0x8B => case 0x8C => case 0x8D => case 0x8E => case 0x8F =>
    case _ =>
  }

  lemma TableRow9(i: bv8)
    requires i & 0xF0 == 0x90
    ensures CrcTable(i) == RoundWord8(i as bv32)
  {
    match i
    case 0x90 => case 0x91 => case 0x92 => case 0x93 => case 0x94 => case 0x95 => case 0x96 => case 0x97 =>
    case 0x98 => case 0x99 => case 0x9A => case 0x9B => case 0x9C => case 0x9D => case 0x9E => case 0x9F =>
    case _ =>
  }

  lemma TableRowA(i: bv8)
    requires i & 0xF0 == 0xA0
    ensures CrcTable(i) == RoundWord8(i as bv32)
  {
    match i
    case 0xA0 => case 0xA1 => case 0xA2 => case 0xA3 => case 0xA4 => case 0xA5 => case 0xA6 => case 0xA7 =>
    case 0xA8 => case 0xA9 => case 0xAA => case 0xAB => case 0xAC => case 0xAD => case 0xAE => case 0xAF =>
    case _ =>
  }

  lemma TableRowB(i: bv8)
    requires i & 0xF0 == 0xB0
    ensures CrcTable(i) == RoundWord8(i as bv32)
  {
    match i
    case 0xB0 => case 0xB1 => case 0xB2 => case 0xB3 => case 0xB4 => case 0xB5 => case 0xB6 => case 0xB7 =>
    case 0xB8 => case 0xB9 => case 0xBA => case 0xBB => case 0xBC => case 0xBD => case 0xBE => case 0xBF =>
    case _ =>
  }

  lemma TableRowC(i: bv8)
    requires i & 0xF0 == 0xC0
    ensures CrcTable(i) == RoundWord8(i as bv32)
  {
    match i
    case 0xC0 => case 0xC1 => case 0xC2 => case 0xC3 => case 0xC4 => case 0xC5 => case 0xC6 => case 0xC7 =>
    case 0xC8 => case 0xC9 => case 0xCA => case 0xCB => case 0xCC => case 0xCD => case 0xCE => case 0xCF =>
    case _ =>
  }

  lemma TableRowD(i: bv8)
    requires i & 0xF0 == 0xD0
    ensures CrcTable(i) == RoundWord8(i as bv32)
  {
    match i
    case 0xD0 => case 0xD1 => case 0xD2 => case 0xD3 => case 0xD4 => case 0xD5 => case 0xD6 => case 0xD7 =>
    case 0xD8 => case 0xD9 => case 0xDA => case 0xDB => case 0xDC => case 0xDD => case 0xDE => case 0xDF =>
    case _ =>
  }

  lemma TableRowE(i: bv8)
    requires i & 0xF0 == 0xE0
    ensures CrcTable(i) == RoundWord8(i as bv32)
  {
    match i
    case 0xE0 => case 0xE1 => case 0xE2 => case 0xE3 => case 0xE4 => case 0xE5 => case 0xE6 => case 0xE7 =>
    case 0xE8 => case 0xE9 => case 0xEA => case 0xEB => case 0xEC => case 0xED => case 0xEE => case 0xEF =>
    case _ =>
  }

  lemma TableRowF(i: bv8)
    requires i & 0xF0 == 0xF0
    ensures CrcTable(i) == RoundWord8(i as bv32)
  {
    match i
    case 0xF0 => case 0xF1 => case 0xF2 => case 0xF3 => case 0xF4 => case 0xF5 => case 0xF6 => case 0xF7 =>
    case 0xF8 => case 0xF9 => case 0xFA => case 0xFB => case 0xFC => case 0xFD => case 0xFE => case 0xFF =>
    case _ =>
  }

  lemma TableWord(i: bv8)
    ensures CrcTable(i) == RoundWord8(i as bv32)
  {
    hide RoundWord8, CrcTable;
    var hi := i & 0xF0;
    if
    case hi == 0x00 => TableRow0(i);
    case hi == 0x10 => TableRow1(i);
    case hi == 0x20 => TableRow2(i);
    case hi == 0x30 => TableRow3(i);
    case hi == 0x40 => TableRow4(i);
    case hi == 0x50 => TableRow5(i);
    case hi == 0x60 => TableRow6(i);
    case hi == 0x70 => TableRow7(i);
    case hi == 0x80 => TableRow8(i);
    case hi == 0x90 => TableRow9(i);
    case hi == 0xA0 => TableRowA(i);
    case hi == 0xB0 => TableRowB(i);
    case hi == 0xC0 => TableRowC(i);
    case hi == 0xD0 => TableRowD(i);
    case hi == 0xE0 => TableRowE(i);
    case hi == 0xF0 => TableRowF(i);
  }

  lemma Quarter(w: bv32)
    ensures Half(Half(Half(Half(w)))) == w >> 4
  {
  }

  function NibbleBits(w: bv32): seq<bool> {
    [w & 1 != 0, w & 2 != 0, w & 4 != 0, w & 8 != 0]
  }

  lemma Odds(w: bv32)
    ensures [Odd(w), Odd(Half(w)), Odd(Half(Half(w))), Odd(Half(Half(Half(w))))] == NibbleBits(w)
  {
  }

  lemma LowBitsTwo(n: nat, w: bv32)
    ensures LowBits(n + 2, w) == [Odd(w), Odd(Half(w))] + LowBits(n, Half(Half(w)))
  {
    hide Odd, Half;
    var l := LowBits(n + 1, Half(w));
    assert l == [Odd(Half(w))] + LowBits(n, Half(Half(w)));
    assert LowBits(n + 2, w) == [Odd(w)] + l;
  }

  lemma Nibble(n: nat, w: bv32)
    ensures LowBits(n + 4, w) == NibbleBits(w) + LowBits(n, w >> 4)
  {
    hide Odd, Half, NibbleBits, LowBits;
    LowBitsTwo(n + 2, w);
    LowBitsTwo(n, Half(Half(w)));
    Quarter(w);
    Odds(w);
  }

  lemma OnesBits()
    ensures WordBits(ALL_ONES) == Ones(32)
  {
    hide LowBits;
    Nibble(28, 0xFFFFFFFF);
    Nibble(24, 0xFFFFFFF);
    Nibble(20, 0xFFFFFF);
    Nibble(16, 0xFFFFF);
    Nibble(12, 0xFFFF);
    Nibble(8, 0xFFF);
    Nibble(4, 0xFF);
    Nibble(0, 0xF);
    LowBitsOfZero(0);
  }

  /** The polynomial constant is the generator of RFC 1952. */
  lemma PolyBits()
    ensures forall i :: 0 <= i < 32 ==> WordBits(POLY)[i] == Generator(i)
  {
    hide LowBits;
    Nibble(28, 0xEDB88320);
    Nibble(24, 0xEDB8832);
    Nibble(20, 0xEDB883);
    Nibble(16, 0xEDB88);
    Nibble(12, 0xEDB8);
    Nibble(8, 0xEDB);
    Nibble(4, 0xED);
    Nibble(0, 0xE);
    LowBitsOfZero(0);
  }

  // ----- One table step is eight bits of the reference -----

  lemma FeedbackBits(b: bool)
    ensures forall i :: 0 <= i < 32 ==> WordBits(Feedback(b))[i] == (b && Generator(i))
  {
    PolyBits();
    LowBitsOfZero(32);
  }

  lemma RoundBits(w: bv32)
    ensures WordBits(RoundWord(w)) == Round(WordBits(w))
  {
    hide Odd, Half, XorWord, Feedback;
    var h, f := WordBits(Half(w)), WordBits(Feedback(Odd(w)));
    LowBitsXor(32, Half(w), Feedback(Odd(w)));
    assert WordBits(RoundWord(w)) == Xor(h, f);
    FeedbackBits(Odd(w));
    WordBitsShift(1, w);
    assert Shift(1, w) == Half(w);
    assert h == WordBits(w)[1..] + [false];
    assert WordBits(w)[0] == Odd(w);
    assert Xor(h, f) == Round(WordBits(w));
  }

  function Rounds(n: nat, c: Register): Register {
    if n == 0 then c else Rounds(n - 1, Round(c))
  }

  /** Entry `i` of the table is eight rounds on `i`. */
  lemma TableEntry(i: bv8)
    ensures WordBits(CrcTable(i)) == Rounds(8, WordBits(i as bv32))
  {
    hide CrcTable, WordBits, RoundWord, Round;
    TableWord(i);
    var w := i as bv32;
    var w2 := RoundWord(RoundWord(w));
    var w4 := RoundWord(RoundWord(w2));
    var w6 := RoundWord(RoundWord(w4));
    TwoRounds(6, w);
    TwoRounds(4, w2);
    TwoRounds(2, w4);
    TwoRounds(0, w6);
  }

  lemma TwoRounds(n: nat, w: bv32)
    ensures Rounds(n + 2, WordBits(w)) == Rounds(n, WordBits(RoundWord(RoundWord(w))))
  {
    hide WordBits, RoundWord, Round;
    RoundBits(w);
    RoundBits(RoundWord(w));
  }

  function Pad(w: seq<bool>): (c: Register)
    requires |w| <= 32
  {
    w + Zeros(32 - |w|)
  }

  /** The first of the message bits waiting in `w` can be fed in while the others wait. */
  lemma RoundOfWord(c: Register, w: seq<bool>)
    requires 0 < |w| <= 32
    ensures Round(Xor(c, Pad(w))) == Xor(FeedBit(c, w[0]), Pad(w[1..]))
  {
  }

  lemma {:induction false} FeedWord(c: Register, w: seq<bool>)
    requires |w| <= 32
    ensures FeedBits(c, w) == Rounds(|w|, Xor(c, Pad(w)))
    decreases |w|
  {
    if w == [] {
      assert Xor(c, Pad(w)) == c;
    } else {
      RoundOfWord(c, w);
      FeedWord(FeedBit(c, w[0]), w[1..]);
    }
  }

  /** What stands above the lowest `n` bits only moves down during `n` rounds. */
  lemma {:induction false} RoundsXor(n: nat, l: Register, z: Register)
    requires n <= 32 && forall i :: 0 <= i < n ==> !z[i]
    ensures Rounds(n, Xor(l, z)) == Xor(Rounds(n, l), z[n..] + Zeros(n))
  {
    if n == 0 {
      assert z[0..] + Zeros(0) == z;
    } else {
      var z': Register := z[1..] + Zeros(1);
      assert Round(Xor(l, z)) == Xor(Round(l), z');
      RoundsXor(n - 1, Round(l), z');
      assert z'[n - 1..] + Zeros(n - 1) == z[n..] + Zeros(n);
    }
  }

  function TableIndex(c: bv32, b: bv8): bv8 {
    ((c & 0xFF) as bv8) ^ b
  }

  function TableStep(c: bv32, b: bv8): bv32 {
    XorWord(c >> 8, CrcTable(TableIndex(c, b)))
  }

  lemma IndexWord(c: bv32, b: bv8)
    ensures SameUnder(0xFF, TableIndex(c, b) as bv32, XorWord(c, b as bv32))
  {
  }

  lemma IndexBits(c: bv32, b: bv8)
    ensures ByteBits(TableIndex(c, b)) == Xor(LowBits(8, c), ByteBits(b))
  {
    hide LowBits, XorWord, SameUnder, TableIndex;
    IndexWord(c, b);
    LowOnes8();
    LowBitsSame(8, 0xFF, TableIndex(c, b) as bv32, XorWord(c, b as bv32));
    LowBitsXor(8, c, b as bv32);
  }

  lemma RoundsOfLowByte(x: Register)
    ensures Rounds(8, x) == Xor(Rounds(8, Pad(x[..8])), x[8..] + Zeros(8))
  {
    var l, z: Register := Pad(x[..8]), Zeros(8) + x[8..];
    assert x == Xor(l, z);
    RoundsXor(8, l, z);
    assert z[8..] == x[8..];
  }

  lemma XorSwap(a: seq<bool>, b: seq<bool>)
    requires |a| == |b|
    ensures Xor(a, b) == Xor(b, a)
  {
  }

  lemma TableStepIsFeed(c: bv32, b: bv8)
    ensures WordBits(TableStep(c, b)) == FeedBits(WordBits(c), ByteBits(b))
  {
    hide CrcTable, TableIndex, LowBits, XorWord, Rounds, FeedBits, Shift;
    var cb, i := WordBits(c), TableIndex(c, b);
    var x := Xor(cb, Pad(ByteBits(b)));
    FeedWord(cb, ByteBits(b));
    RoundsOfLowByte(x);
    IndexBits(c, b);
    LowBitsSplit(8, 24, c);
    assert x[..8] == ByteBits(i) && x[8..] == cb[8..];
    WordBitsOfByte(i);
    TableEntry(i);
    Shift8(c);
    WordBitsShift(8, c);
    LowBitsXor(32, c >> 8, CrcTable(i));
    XorSwap(WordBits(c >> 8), WordBits(CrcTable(i)));
  }

  // ----- CalculateCrc -----

  /** The register after a message, as a word. */
  function RunTable(c: bv32, m: seq<bv8>): bv32 {
    if m == [] then c else TableStep(RunTable(c, m[..|m| - 1]), m[|m| - 1])
  }

  function CrcWord(m: seq<bv8>): bv32 {
    XorWord(RunTable(ALL_ONES, m), ALL_ONES)
  }

  lemma BitsSnoc(m: seq<bv8>, b: bv8)
    ensures Bits(m + [b]) == Bits(m) + ByteBits(b)
  {
    BitsConcat(m, [b]);
    assert Bits([b]) == ByteBits(b) + Bits([]);
  }

  lemma {:induction false} RunTableIsFeed(m: seq<bv8>)
    ensures WordBits(RunTable(ALL_ONES, m)) == FeedBits(Ones(32), Bits(m))
  {
    hide TableStep, LowBits, WordBits;
    if m == [] {
      OnesBits();
    } else {
      var n := |m| - 1;
      RunTableIsFeed(m[..n]);
      TableStepIsFeed(RunTable(ALL_ONES, m[..n]), m[n]);
      BitsSnoc(m[..n], m[n]);
      assert m == m[..n] + [m[n]];
      FeedBitsConcat(Ones(32), Bits(m[..n]), ByteBits(m[n]));
    }
  }

  /** The table-driven word is the reference CRC. */
  lemma CrcWordIsCrc32(m: seq<bv8>)
    ensures WordBits(CrcWord(m)) == Crc32(m)
  {
    hide XorWord, LowBits, RunTable;
    RunTableIsFeed(m);
    LowBitsXor(32, RunTable(ALL_ONES, m), ALL_ONES);
    OnesBits();
  }

  /** Comparing words is comparing reference CRCs. */
  lemma SameCrcIff(a: seq<bv8>, b: seq<bv8>)
    ensures CrcWord(a) == CrcWord(b) <==> Crc32(a) == Crc32(b)
  {
    hide CrcWord, Crc32, WordBits;
    CrcWordIsCrc32(a);
    CrcWordIsCrc32(b);
    if Crc32(a) == Crc32(b) {
      WordBitsInjective(CrcWord(a), CrcWord(b));
    }
  }

  /** The CRC of nothing, and the check value: the CRC of the nine digits "123456789". */
  lemma CheckValue()
    ensures CrcWord([]) == 0
    ensures CrcWord([0x31, 0x32, 0x33, 0x34, 0x35, 0x36, 0x37, 0x38, 0x39]) == 0xCBF4_3926
  {
    hide TableStep, XorWord;
    FirstDigits();
    LastDigits();
    LastInversion();
    assert RunTable(ALL_ONES, []) == ALL_ONES;
    var m: seq<bv8> := [0x31, 0x32, 0x33, 0x34, 0x35];
    RunSnoc(ALL_ONES, m, 0x36);
    RunSnoc(ALL_ONES, m + [0x36], 0x37);
    RunSnoc(ALL_ONES, m + [0x36] + [0x37], 0x38);
    RunSnoc(ALL_ONES, m + [0x36] + [0x37] + [0x38], 0x39);
    assert m + [0x36] + [0x37] + [0x38] + [0x39] == [0x31, 0x32, 0x33, 0x34, 0x35, 0x36, 0x37, 0x38, 0x39];
  }

  lemma RunSnoc(c: bv32, m: seq<bv8>, b: bv8)
    ensures RunTable(c, m + [b]) == TableStep(RunTable(c, m), b)
  {
    hide TableStep;
    assert (m + [b])[..|m|] == m;
  }

  lemma FirstDigits()
    ensures RunTable(ALL_ONES, [0x31, 0x32, 0x33, 0x34, 0x35]) == 0x340A_C5E3
  {
    hide TableStep;
    DigitSteps();
    var e: seq<bv8> := [];
    RunSnoc(ALL_ONES, e, 0x31);
    RunSnoc(ALL_ONES, e + [0x31], 0x32);
    RunSnoc(ALL_ONES, e + [0x31] + [0x32], 0x33);
    RunSnoc(ALL_ONES, e + [0x31] + [0x32] + [0x33], 0x34);
    RunSnoc(ALL_ONES, e + [0x31] + [0x32] + [0x33] + [0x34], 0x35);
    assert e + [0x31] + [0x32] + [0x33] + [0x34] + [0x35] == [0x31, 0x32, 0x33, 0x34, 0x35];
  }

  lemma DigitSteps()
    ensures TableStep(0xFFFF_FFFF, 0x31) == 0x7C23_1048 && TableStep(0x7C23_1048, 0x32) == 0xB0AC_BB32
    ensures TableStep(0xB0AC_BB32, 0x33) == 0x77B7_9C2D && TableStep(0x77B7_9C2D, 0x34) == 0x641C_1F5C
    ensures TableStep(0x641C_1F5C, 0x35) == 0x340A_C5E3
  {
  }

  lemma LastDigits()
    ensures TableStep(0x340A_C5E3, 0x36) == 0xF68D_2C9E && TableStep(0xF68D_2C9E, 0x37) == 0xAFFC_9660
    ensures TableStep(0xAFFC_9660, 0x38) == 0x651F_2550 && TableStep(0x651F_2550, 0x39) == 0x340B_C6D9
  {
  }

  lemma LastInversion()
    ensures XorWord(0x340B_C6D9, ALL_ONES) == 0xCBF4_3926 && XorWord(ALL_ONES, ALL_ONES) == 0
  {
  }

  function LowByte(w: bv32): bv8 {
    (w & 0xFF) as bv8
  }

  function OffByte(w: bv32): bv32 {
    w >> 8
  }

  /** The bits of a word are those of its bytes, lowest byte first. */
  lemma BytesOfWord(w: bv32)
    ensures WordBits(w) == ByteBits(LowByte(w)) + ByteBits(LowByte(OffByte(w))) + ByteBits(LowByte(OffByte(OffByte(w))))
                           + ByteBits(LowByte(OffByte(OffByte(OffByte(w)))))
  {
    hide LowBits, LowByte, OffByte, ByteBits;
    var w1 := OffByte(w);
    var w2 := OffByte(w1);
    var w3 := OffByte(w2);
    FirstByte(24, w);
    FirstByte(16, w1);
    FirstByte(8, w2);
    FirstByte(0, w3);
    NoBits(OffByte(w3));
    Associate(ByteBits(LowByte(w)), ByteBits(LowByte(w1)), ByteBits(LowByte(w2)), ByteBits(LowByte(w3)));
  }

  lemma NoBits(w: bv32)
    ensures LowBits(0, w) == []
  {
  }

  lemma Associate(a: seq<bool>, b: seq<bool>, c: seq<bool>, d: seq<bool>)
    ensures a + (b + (c + (d + []))) == a + b + c + d
  {
  }

  lemma FirstByte(n: nat, w: bv32)
    ensures LowBits(8 + n, w) == ByteBits(LowByte(w)) + LowBits(n, OffByte(w))
  {
    hide LowBits, Shift, ByteBits, LowByte, OffByte;
    LowBitsSplit(8, n, w);
    Shift8IsOffByte(w);
    LowByteBits(w);
  }

  lemma Shift8IsOffByte(w: bv32)
    ensures Shift(8, w) == OffByte(w)
  {
    hide Shift;
    Shift8(w);
  }

  lemma LowByteBits(w: bv32)
    ensures LowBits(8, w) == ByteBits(LowByte(w))
  {
    hide LowBits, LowOnes, SameUnder;
    LowOnes8();
    ByteSame(w);
    LowBitsSame(8, 0xFF, w, LowByte(w) as bv32);
  }

  lemma ByteSame(w: bv32)
    ensures SameUnder(0xFF, w, LowByte(w) as bv32)
  {
  }

  /** Messages that differ only inside four consecutive bytes have different words. */
  lemma CrcWordDetects(a: seq<bv8>, b: seq<bv8>, at: nat)
    requires |a| == |b| && at <= |a|
    requires forall i :: 0 <= i < |a| && !(at <= i < at + 4) ==> a[i] == b[i]
    requires a != b
    ensures CrcWord(a) != CrcWord(b)
  {
    hide CrcWord, Crc32;
    SameCrcIff(a, b);
    WindowDetected(a, b, at);
  }

  /** The accumulator is a 64-bit UINTN; it always holds the extension of a 32-bit word. */
  function Wide(c: bv32): bv64 {
    c as bv64
  }

  function WideStep(crc: bv64, b: bv8): bv64 {
    (crc >> 8) ^ (CrcTable(((crc & 0xFF) as bv8) ^ b) as bv64)
  }

  function Narrow(crc: bv64): bv32 {
    (crc & 0xFFFF_FFFF) as bv32
  }

  lemma WideIndex(c: bv32, b: bv8)
    ensures ((Wide(c) & 0xFF) as bv8) ^ b == TableIndex(c, b)
  {
  }

  lemma WideXor(c: bv32, t: bv32)
    ensures (Wide(c) >> 8) ^ (t as bv64) == Wide(XorWord(c >> 8, t))
  {
  }

  lemma WideStepIsStep(c: bv32, b: bv8)
    ensures WideStep(Wide(c), b) == Wide(TableStep(c, b))
  {
    hide CrcTable, Wide, TableIndex, XorWord;
    WideIndex(c, b);
    WideXor(c, CrcTable(TableIndex(c, b)));
  }

  lemma WideInvert(c: bv32)
    ensures Narrow(Wide(c) ^ 0xFFFF_FFFF) == XorWord(c, ALL_ONES)
  {
  }

  lemma WideOnes()
    ensures Wide(ALL_ONES) == 0xFFFF_FFFF
  {
  }

  lemma WideBound(crc: bv64, t: bv32)
    ensures crc <= 0xFFFF_FFFF ==> (crc >> 8) ^ (t as bv64) <= 0xFFFF_FFFF
  {
  }

  /** A step keeps the accumulator below 2^32. */
  lemma WideFits(crc: bv64, b: bv8)
    ensures crc <= 0xFFFF_FFFF ==> WideStep(crc, b) <= 0xFFFF_FFFF
  {
    hide CrcTable;
    WideBound(crc, CrcTable(((crc & 0xFF) as bv8) ^ b));
  }

  method CalculateCrc(mem: array<bv8>, size: nat) returns (r: bv32)
    requires size <= mem.Length
    ensures WordBits(r) == Crc32(mem[..size])
    ensures r == CrcWord(mem[..size])
  {
    hide WordBits, Crc32, WideStep, Wide, Narrow, TableStep, XorWord;
    var pt, left := 0, size;
    var crc: bv64 := 0xFFFF_FFFF;
    ghost var c := ALL_ONES;
    WideOnes();
    while left != 0
      invariant pt + left == size && crc <= 0xFFFF_FFFF
      invariant crc == Wide(c) && c == RunTable(ALL_ONES, mem[..pt])
    {
      WideStepIsStep(c, mem[pt]);
      WideFits(crc, mem[pt]);
      crc := WideStep(crc, mem[pt]);
      c := TableStep(c, mem[pt]);
      assert mem[..pt + 1][..pt] == mem[..pt];
      pt := pt + 1;
      left := left - 1;
    }
    WideInvert(c);
    r := Narrow(crc ^ 0xFFFF_FFFF);
    CrcWordIsCrc32(mem[..size]);
  }
}
