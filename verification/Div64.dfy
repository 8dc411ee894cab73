/** The shift-and-subtract division of gnu-efi/lib/ia32/math.c. */
module Div64 {
  import opened Common

  const W32: nat := 0x1_0000_0000
  const HALF32: nat := 0x8000_0000
  const HALF64: nat := 0x8000_0000_0000_0000

  type Word = w: int | 0 <= w < 0x1_0000_0000
  type Bit = b: int | 0 <= b <= 1

  function Pow2(n: nat): (p: nat)
    ensures p > 0
  {
    if n == 0 then 1 else 2 * Pow2(n - 1)
  }

  /** The dividend register, in two halves, and the remainder. */
  datatype State = State(lo: Word, hi: Word, rem: Word)
  {
    function Dividend(): nat { W32 * hi + lo }
  }

  function Carry(w: Word): Bit {
    if w >= HALF32 then 1 else 0
  }

  /** A rotate through carry to the left; `shll` is the case with no carry in. */
  function RotateLeft(w: Word, cf: Bit): Word {
    (2 * w + cf) % W32
  }

  /** `shll`, `rcll`, `rcll`: the 96-bit register moves up by one bit. */
  function Shift(s: State): State {
    State(RotateLeft(s.lo, 0), RotateLeft(s.hi, Carry(s.lo)), RotateLeft(s.rem, Carry(s.hi)))
  }

  /** `mov`, `cmp`, `cmc`, `sbb`, `sub`, `and`, `sub`: eax becomes all ones when the divisor
      fits into the remainder and zero otherwise, which puts the quotient bit in at the bottom
      and takes the divisor off the remainder. */
  function Subtract(s: State, divisor: Word): State {
    var borrow: Bit := if s.rem < divisor then 1 else 0;
    var eax: Word := (W32 - (1 - borrow)) % W32;
    var masked: Word := if eax == 0 then 0 else divisor;
    State((s.lo - eax) % W32, s.hi, (s.rem - masked) % W32)
  }

  function Round(s: State, divisor: Word): State {
    Subtract(Shift(s), divisor)
  }

  lemma RotateMeaning(w: Word, cf: Bit)
    ensures RotateLeft(w, cf) == 2 * w + cf - W32 * Carry(w)
  {
  }

  lemma ShiftMeaning(s: State)
    ensures Shift(s).Dividend() == 2 * s.Dividend() - W64 * Carry(s.hi)
    ensures Shift(s).lo % 2 == 0
    ensures s.rem < HALF32 ==> Shift(s).rem == 2 * s.rem + Carry(s.hi)
  {
    RotateMeaning(s.lo, 0);
    RotateMeaning(s.hi, Carry(s.lo));
    RotateMeaning(s.rem, Carry(s.hi));
    hide RotateLeft;
    assert (2 * s.lo - W32 * Carry(s.lo)) % 2 == 0;
  }

  lemma SubtractMeaning(s: State, divisor: Word)
    requires s.lo % 2 == 0
    ensures var b: Bit := if s.rem >= divisor then 1 else 0;
            && Subtract(s, divisor).Dividend() == s.Dividend() + b
            && Subtract(s, divisor).rem == s.rem - b * divisor
  {
  }

  lemma TopBit(s: State)
    ensures Carry(s.hi) == if s.Dividend() >= HALF64 then 1 else 0
  {
  }

  /** One round in terms of numbers: the bit that leaves the top of the register enters the
      remainder, and the quotient bit takes the place at the bottom. */
  lemma RoundMeaning(s: State, divisor: Word)
    requires s.rem < HALF32
    ensures var s' := Round(s, divisor);
            var out: Bit := if s.Dividend() >= HALF64 then 1 else 0;
            var r := 2 * s.rem + out;
            var b: Bit := if r >= divisor then 1 else 0;
            && s'.Dividend() == 2 * s.Dividend() - W64 * out + b
            && s'.rem == r - b * divisor
  {
    hide Shift, Subtract;
    ShiftMeaning(s);
    TopBit(s);
    SubtractMeaning(Shift(s), divisor);
  }

  // ----- Division facts -----

  lemma DivModUnique(n: nat, b: nat, q: nat, r: nat)
    requires n == q * b + r && r < b
    ensures n / b == q && n % b == r
  {
    var q', r' := n / b, n % b;
    Quotient(n, b);
    if q' > q { Apart(q', q, b); }
    if q > q' { Apart(q, q', b); }
  }

  lemma Distribute(x: int, y: int, b: int)
    ensures (x + y) * b == x * b + y * b
  {
  }

  lemma Apart(x: nat, y: nat, b: nat)
    requires x > y
    ensures x * b >= y * b + b
  {
    Distribute(y + 1, x - y - 1, b);
    Distribute(y, 1, b);
    Product(x - y - 1, b);
  }

  lemma Product(a: nat, b: nat)
    ensures a * b >= 0
  {
  }

  lemma Quotient(a: nat, b: nat)
    requires b > 0
    ensures a / b >= 0 && a == (a / b) * b + a % b && a % b < b
  {
  }

  lemma {:induction false} Pow2Add(a: nat, b: nat)
    ensures Pow2(a) * Pow2(b) == Pow2(a + b)
  {
    if a == 0 {
    } else {
      Pow2Add(a - 1, b);
      assert Pow2(a) * Pow2(b) == 2 * (Pow2(a - 1) * Pow2(b));
    }
  }

  lemma Pow2Values()
    ensures Pow2(31) == HALF32 && Pow2(32) == W32 && Pow2(63) == HALF64 && Pow2(64) == W64
  {
    assert Pow2(8) == 0x100;
    Pow2Add(8, 8);
    Pow2Add(16, 15);
    Pow2Add(32, 31);
    assert Pow2(15) == 2 * Pow2(14) && Pow2(16) == 2 * Pow2(15);
  }

  // ----- The state after k rounds -----

  /** The `k` dividend bits that have left the register, and the ones still in it. */
  ghost function Gone(d: nat, k: nat): nat
    requires k <= 64
  {
    Quotient(d, Pow2(64 - k));
    d / Pow2(64 - k)
  }

  ghost function Left(d: nat, k: nat): nat
    requires k <= 64
  {
    d % Pow2(64 - k)
  }

  lemma NextBit(d: nat, k: nat)
    requires k < 64
    ensures var out: Bit := if Left(d, k) >= Pow2(63 - k) then 1 else 0;
            Gone(d, k + 1) == 2 * Gone(d, k) + out && Left(d, k + 1) == Left(d, k) - out * Pow2(63 - k)
  {
    var b := Pow2(63 - k);
    assert Pow2(64 - k) == 2 * b;
    Quotient(d, 2 * b);
    Halved(d, b, Gone(d, k), Left(d, k));
  }

  lemma Halved(d: nat, b: nat, g: nat, l: nat)
    requires d == g * (2 * b) + l && l < 2 * b
    ensures var out: Bit := if l >= b then 1 else 0; d / b == 2 * g + out && d % b == l - out * b
  {
    var out: Bit := if l >= b then 1 else 0;
    Distribute(2 * g, out, b);
    assert g * (2 * b) == (2 * g) * b;
    DivModUnique(d, b, 2 * g + out, l - out * b);
  }

  function Rounds(k: nat, s: State, divisor: Word): State {
    if k == 0 then s else Round(Rounds(k - 1, s, divisor), divisor)
  }

  function Start(d: nat): State
    requires d < W64
  {
    State(d % W32, d / W32, 0)
  }

  /** After `k` rounds the register holds the remaining dividend bits, moved up, with the
      quotient of the bits that have left below them; the remainder goes with that quotient. */
  ghost predicate Holds(d: nat, divisor: Word, k: nat, s: State)
    requires divisor > 0 && k <= 64
  {
    && s.Dividend() == Left(d, k) * Pow2(k) + Gone(d, k) / divisor
    && s.rem == Gone(d, k) % divisor
    && Gone(d, k) / divisor < Pow2(k)
  }

  lemma TopOfRegister(l: nat, a: nat, b: nat, q: nat)
    requires q < a && a * b == HALF64
    ensures l * a + q >= HALF64 <==> l >= b
  {
    if l >= b {
      assert l * a == b * a + (l - b) * a;
    } else {
      Apart(b, l, a);
    }
  }

  lemma QuotientStep(g: nat, out: Bit, divisor: Word, rem: nat, b: Bit)
    requires divisor > 0 && rem == g % divisor
    requires b == (if 2 * rem + out >= divisor then 1 else 0)
    ensures (2 * g + out) / divisor == 2 * (g / divisor) + b
    ensures (2 * g + out) % divisor == 2 * rem + out - b * divisor
  {
    var q := g / divisor;
    Quotient(g, divisor);
    Distribute(q, q, divisor);
    Distribute(q + q, b, divisor);
    DivModUnique(2 * g + out, divisor, 2 * q + b, 2 * rem + out - b * divisor);
  }

  /** A round keeps the invariant, unless the shift loses the top bit of the remainder. */
  lemma HoldsStep(d: nat, divisor: Word, k: nat, s: State)
    requires divisor > 0 && k < 64
    ensures Holds(d, divisor, k, s) && s.rem < HALF32 ==> Holds(d, divisor, k + 1, Round(s, divisor))
  {
    if Holds(d, divisor, k, s) && s.rem < HALF32 {
      NextRound(d, divisor, k, s);
    }
  }

  lemma NextRound(d: nat, divisor: Word, k: nat, s: State)
    requires divisor > 0 && k < 64 && Holds(d, divisor, k, s) && s.rem < HALF32
    ensures Holds(d, divisor, k + 1, Round(s, divisor))
  {
    hide Round, State.Dividend, Gone, Left, Pow2;
    Pow2Next(k);
    var a, b := Pow2(k), Pow2(63 - k);
    var g, l, q := Gone(d, k), Left(d, k), Gone(d, k) / divisor;
    Pow2Add(k, 63 - k);
    Pow2Values();
    TopOfRegister(l, a, b, q);
    NextBit(d, k);
    RoundMeaning(s, divisor);
    var out: Bit := if l >= b then 1 else 0;
    var bit: Bit := if 2 * s.rem + out >= divisor then 1 else 0;
    QuotientStep(g, out, divisor, s.rem, bit);
    RegisterStep(l, a, b, q, out, bit);
  }

  lemma Pow2Next(k: nat)
    ensures Pow2(k + 1) == 2 * Pow2(k)
  {
  }

  lemma RegisterStep(l: nat, a: nat, b: nat, q: nat, out: Bit, bit: Bit)
    requires a * b == HALF64 && (out == 1 ==> l >= b)
    ensures 2 * (l * a + q) - W64 * out + bit == (l - out * b) * (2 * a) + (2 * q + bit)
  {
    if out == 1 {
      assert (l - b) * (2 * a) == 2 * (l * a) - 2 * (a * b);
    } else {
      assert l * (2 * a) == 2 * (l * a);
    }
  }

  /** No remainder met before round `k` loses its top bit in the shift. */
  ghost predicate Safe(d: nat, divisor: Word, k: nat)
    requires divisor > 0 && k <= 64
  {
    k == 0 || (Safe(d, divisor, k - 1) && Gone(d, k - 1) % divisor < HALF32)
  }

  lemma {:induction false} AfterRounds(d: nat, divisor: Word, k: nat)
    requires d < W64 && divisor > 0 && k <= 64 && Safe(d, divisor, k)
    ensures Holds(d, divisor, k, Rounds(k, Start(d), divisor))
  {
    if k == 0 {
      Pow2Values();
      DivModUnique(d, W64, 0, d);
      assert d * 1 == d;
    } else {
      AfterRounds(d, divisor, k - 1);
      HoldsStep(d, divisor, k - 1, Rounds(k - 1, Start(d), divisor));
    }
  }

  lemma {:induction false} SmallDivisorSafe(d: nat, divisor: Word, k: nat)
    requires 0 < divisor <= HALF32 && k <= 64
    ensures Safe(d, divisor, k)
  {
    if k == 0 {
    } else {
      SmallDivisorSafe(d, divisor, k - 1);
    }
  }

  function Divide(d: nat, divisor: Word): State
    requires d < W64
  {
    Rounds(64, Start(d), divisor)
  }

  ghost predicate Exact(d: nat, divisor: Word)
    requires d < W64 && divisor > 0
  {
    Divide(d, divisor).Dividend() == d / divisor && Divide(d, divisor).rem == d % divisor
  }

  lemma SmallDivisorExact(d: nat, divisor: Word)
    requires d < W64 && 0 < divisor <= HALF32
    ensures Exact(d, divisor)
  {
    hide Round, Rounds;
    SmallDivisorSafe(d, divisor, 64);
    AfterRounds(d, divisor, 64);
    assert Pow2(0) == 1 && Gone(d, 64) == d && Left(d, 64) == 0;
    assert Left(d, 64) * Pow2(64) == 0;
  }

  // ----- Larger divisors -----

  lemma GoneSmall(k: nat)
    requires k <= 62
    ensures Gone(W32, k) < HALF32
  {
    var b := Pow2(64 - k);
    assert b == 2 * Pow2(63 - k) && Pow2(63 - k) == 2 * Pow2(62 - k);
    Quotient(W32, b);
    Grow(W32 / b, 4, b);
  }

  lemma Grow(q: nat, x: nat, y: nat)
    requires x <= y
    ensures q * x <= q * y
  {
    Distribute(x, y - x, q);
    Product(y - x, q);
  }

  lemma {:induction false} PowerSafe(divisor: Word, k: nat)
    requires divisor > HALF32 && k <= 63
    ensures Safe(W32, divisor, k)
  {
    if k == 0 {
    } else {
      PowerSafe(divisor, k - 1);
      GoneSmall(k - 1);
      DivModUnique(Gone(W32, k - 1), divisor, 0, Gone(W32, k - 1));
    }
  }

  lemma LastRoundLoses(s: State, divisor: Word)
    requires s.Dividend() == 0 && s.rem == HALF32 && divisor > 0
    ensures Round(s, divisor).Dividend() == 0
  {
  }

  /** Beyond 2^31 the shift pushes the remainder's top bit out: 2^32 comes out as zero. */
  lemma LargeDivisorFails(divisor: Word)
    requires divisor > HALF32
    ensures Divide(W32, divisor).Dividend() == 0 && W32 / divisor == 1
    ensures !Exact(W32, divisor)
  {
    hide Round, State.Dividend;
    PowerSafe(divisor, 63);
    AfterRounds(W32, divisor, 63);
    var s := Rounds(63, Start(W32), divisor);
    assert Pow2(1) == 2 * Pow2(0);
    assert Gone(W32, 63) == HALF32 && Left(W32, 63) == 0;
    DivModUnique(HALF32, divisor, 0, HALF32);
    assert 0 * Pow2(63) == 0;
    LastRoundLoses(s, divisor);
    DivModUnique(W32, divisor, 1, W32 - divisor);
  }

  /** The routine divides every 64-bit dividend exactly if and only if the divisor is at most
      2^31, one more than its own assertion allows. */
  lemma ExactIff(divisor: Word)
    requires divisor > 0
    ensures (forall d: nat :: d < W64 ==> Exact(d, divisor)) <==> divisor <= HALF32
  {
    hide Exact, Divide;
    if divisor <= HALF32 {
      forall d: nat | d < W64 ensures Exact(d, divisor) {
        SmallDivisorExact(d, divisor);
      }
    } else {
      LargeDivisorFails(divisor);
    }
  }

  /** The routine. Its assertions ask for a divisor that is neither zero nor above 31 bits. */
  method DivU64x32(dividend: nat, divisor: Word) returns (quotient: nat, remainder: Word)
    requires dividend < W64 && divisor != 0
    ensures divisor <= HALF32 ==> quotient == dividend / divisor && remainder == dividend % divisor
    ensures quotient == Divide(dividend, divisor).Dividend() && remainder == Divide(dividend, divisor).rem
  {
    hide Round, State.Dividend;
    var s := Start(dividend);
    for bit := 0 to 64
      invariant s == Rounds(bit, Start(dividend), divisor)
    {
      s := Round(s, divisor);
    }
    if divisor <= HALF32 { SmallDivisorExact(dividend, divisor); }
    return s.Dividend(), s.rem;
  }
}
