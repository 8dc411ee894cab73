/** Number printing (gnu-efi/lib/print.c) and parsing (gnu-efi/lib/str.c). */
module NumberText {
  import opened Common
  import opened CText
  import Div64

  const MIN_I64: int := -0x8000_0000_0000_0000

  // ----- Positional notation -----

  type Base = b: int | b == 10 || b == 16 witness 10

  function Digit(d: nat): Unit
    requires d < 16
  {
    if d < 10 then ZERO + d else UPPER_A + (d - 10)
  }

  predicate IsDigit(c: Char16) {
    ZERO <= c <= NINE || UPPER_A <= c <= UPPER_F
  }

  function Upper(c: Char16): Char16 {
    if LOWER_A <= c <= LOWER_F then c - (LOWER_A - UPPER_A) else c
  }

  function DigitValue(c: Char16): nat
    requires IsDigit(c)
  {
    if c >= UPPER_A then c - (UPPER_A - 10) else c - ZERO
  }

  /** The digits of `v`, most significant first; none for zero. */
  function Digits(b: Base, v: nat): Text {
    if v == 0 then [] else Digits(b, v / b) + [Digit(v % b)]
  }

  function Numeral(b: Base, v: nat): Text {
    if v == 0 then [ZERO] else Digits(b, v)
  }

  /** A character that continues a number: hexadecimal digits of either case, or decimal ones. */
  predicate Continues(b: Base, c: Char16) {
    if b == 16 then IsDigit(Upper(c)) else ZERO <= c <= NINE
  }

  function CharValue(b: Base, c: Char16): nat
    requires Continues(b, c)
  {
    DigitValue(Upper(c))
  }

  predicate AllContinue(b: Base, s: Text) {
    forall i :: 0 <= i < |s| ==> Continues(b, s[i])
  }

  /** The value of a digit string. */
  function Value(b: Base, s: Text): nat
    requires AllContinue(b, s)
  {
    if s == [] then 0 else b * Value(b, s[..|s| - 1]) + CharValue(b, s[|s| - 1])
  }

  lemma {:induction false} DigitsValue(b: Base, v: nat)
    ensures AllContinue(b, Digits(b, v)) && Value(b, Digits(b, v)) == v
  {
    if v == 0 {
    } else {
      DigitsValue(b, v / b);
      ValueSnoc(b, Digits(b, v / b), v % b);
    }
  }

  lemma ValueSnoc(b: Base, s: Text, d: nat)
    requires d < b && AllContinue(b, s)
    ensures AllContinue(b, s + [Digit(d)]) && Value(b, s + [Digit(d)]) == b * Value(b, s) + d
  {
    assert (s + [Digit(d)])[..|s|] == s;
  }

  lemma ZeroDigit(b: Base)
    ensures Continues(b, ZERO) && CharValue(b, ZERO) == 0
  {
  }

  lemma {:induction false} LeadingZeros(b: Base, n: nat, s: Text)
    requires AllContinue(b, s)
    ensures AllContinue(b, Repeat(ZERO, n) + s) && Value(b, Repeat(ZERO, n) + s) == Value(b, s)
    decreases |s|, n
  {
    hide Continues, CharValue, Repeat;
    ZeroDigit(b);
    var z := Repeat(ZERO, n) + s;
    if s == [] {
      if n > 0 {
        LeadingZeros(b, n - 1, []);
        assert z[..|z| - 1] == Repeat(ZERO, n - 1) + [];
      }
    } else {
      LeadingZeros(b, n, s[..|s| - 1]);
      assert z[..|z| - 1] == Repeat(ZERO, n) + s[..|s| - 1];
    }
  }

  function Repeat(c: Unit, n: nat): (s: Text)
    ensures |s| == n && forall i :: 0 <= i < n ==> s[i] == c
  {
    seq(n, _ => c)
  }

  // ----- Parsing -----

  function SkipSpaces(s: Text): Text {
    if s != [] && s[0] == SPACE then SkipSpaces(s[1..]) else s
  }

  /** The longest prefix made of number characters. */
  function NumberPrefix(b: Base, s: Text): (p: Text)
    ensures AllContinue(b, p)
  {
    if s != [] && Continues(b, s[0]) then [s[0]] + NumberPrefix(b, s[1..]) else []
  }

  function Parsed(b: Base, s: Text): nat {
    Value(b, NumberPrefix(b, SkipSpaces(s))) % W64
  }

  lemma {:induction false} PrefixOfNumber(b: Base, p: Text, tail: Text)
    requires AllContinue(b, p) && (tail != [] ==> !Continues(b, tail[0]))
    ensures NumberPrefix(b, p + tail) == p
    decreases |p|
  {
    if p == [] {
      assert p + tail == tail;
    } else {
      assert (p + tail)[0] == p[0] && (p + tail)[1..] == p[1..] + tail;
      PrefixOfNumber(b, p[1..], tail);
      assert p == [p[0]] + p[1..];
    }
  }

  lemma {:induction false} SkipLeading(n: nat, s: Text)
    requires s == [] || s[0] != SPACE
    ensures SkipSpaces(Repeat(SPACE, n) + s) == s
  {
    var t := Repeat(SPACE, n) + s;
    if n == 0 {
      assert t == s;
    } else {
      assert t[1..] == Repeat(SPACE, n - 1) + s;
      SkipLeading(n - 1, s);
    }
  }

  /** Printing and parsing: a numeral, with any field padding before it and anything that does
      not continue it behind, parses to the number it came from. */
  lemma ParseNumeral(b: Base, v: nat, spaces: nat, zeros: nat, tail: Text)
    requires v < W64 && (tail != [] ==> !Continues(b, tail[0]))
    ensures Parsed(b, Repeat(SPACE, spaces) + (Repeat(ZERO, zeros) + Numeral(b, v) + tail)) == v
  {
    hide Value, NumberPrefix, SkipSpaces, Numeral, Continues, Repeat, AllContinue;
    var z := Repeat(ZERO, zeros) + Numeral(b, v);
    NumeralValue(b, v);
    LeadingZeros(b, zeros, Numeral(b, v));
    NoSpace(b, z);
    SkipLeading(spaces, z + tail);
    PrefixOfNumber(b, z, tail);
  }

  lemma NoSpace(b: Base, z: Text)
    requires z != [] && AllContinue(b, z)
    ensures z[0] != SPACE
  {
    assert Continues(b, z[0]);
  }

  lemma NumeralValue(b: Base, v: nat)
    ensures Numeral(b, v) != [] && AllContinue(b, Numeral(b, v)) && Value(b, Numeral(b, v)) == v
  {
    DigitsValue(b, v);
    if v == 0 { assert [ZERO][..0] == []; }
  }

  // ----- xtoi and Atoi -----

  /** Folding one more digit into an accumulator that wraps at 64 bits. */
  function Fold(b: Base, u: nat, p: Text): nat
    requires AllContinue(b, p)
    decreases |p|
  {
    if p == [] then u % W64 else Fold(b, (u * b + CharValue(b, p[0])) % W64, p[1..])
  }

  lemma {:induction false} FoldSnoc(b: Base, u: nat, p: Text)
    requires AllContinue(b, p) && p != []
    ensures AllContinue(b, p[..|p| - 1])
    ensures Fold(b, u, p) == (Fold(b, u, p[..|p| - 1]) * b + CharValue(b, p[|p| - 1])) % W64
    decreases |p|
  {
    hide CharValue, Continues, Fold;
    FoldFirst(b, u, p);
    if |p| == 1 {
      FoldNothing(b, u, p[..0]);
      FoldNothing(b, (u * b + CharValue(b, p[0])) % W64, p[1..]);
      WrapOnce(u, b, CharValue(b, p[0]));
      ModTwice(u * b + CharValue(b, p[0]));
    } else {
      FoldSnoc(b, (u * b + CharValue(b, p[0])) % W64, p[1..]);
      FoldFirst(b, u, p[..|p| - 1]);
      assert p[1..][..|p| - 2] == p[..|p| - 1][1..];
    }
  }

  lemma FoldFirst(b: Base, u: nat, p: Text)
    requires AllContinue(b, p) && p != []
    ensures Fold(b, u, p) == Fold(b, (u * b + CharValue(b, p[0])) % W64, p[1..])
  {
    hide CharValue, Continues;
  }

  lemma FoldNothing(b: Base, u: nat, p: Text)
    requires p == []
    ensures Fold(b, u, p) == u % W64
  {
  }

  lemma ModTwice(u: nat)
    ensures u % W64 % W64 == u % W64
  {
  }

  lemma WrapOnce(u: nat, b: Base, d: nat)
    ensures (u % W64 * b + d) % W64 == (u * b + d) % W64
  {
    var q, r := u / W64, u % W64;
    assert u * b == (q * b) * W64 + r * b by { assert u == q * W64 + r; }
    WrapShift(q * b, r * b + d);
  }

  lemma WrapShift(k: nat, x: nat)
    ensures (k * W64 + x) % W64 == x % W64
  {
  }

  /** A shift by four makes room for the digit that is then or-ed in. */
  lemma ShiftOr(u: nat, d: nat)
    requires d < 16
    ensures u * 16 % W64 + d == (u * 16 + d) % W64
  {
  }

  /** Wrapping at every digit gives the value of the digits modulo 2^64. */
  lemma {:induction false} FoldIsValue(b: Base, p: Text)
    requires AllContinue(b, p)
    ensures Fold(b, 0, p) == Value(b, p) % W64
    decreases |p|
  {
    if p == [] {
    } else {
      var q := p[..|p| - 1];
      FoldSnoc(b, 0, p);
      FoldIsValue(b, q);
      WrapOnce(Value(b, q), b, CharValue(b, p[|p| - 1]));
    }
  }

  /** The skipping of leading spaces that both parsers start with. */
  method SkipLeadingSpaces(str: Text) returns (i: nat)
    ensures i <= |str| && str[i..] == SkipSpaces(str)
  {
    i := 0;
    while At(str, i) != 0 && At(str, i) == SPACE
      invariant i <= |str| && SkipSpaces(str[i..]) == SkipSpaces(str)
      decreases |str| - i
    {
      assert str[i..][1..] == str[i + 1..];
      i := i + 1;
    }
  }

  lemma FoldNext(b: Base, u: nat, s: Text, i: nat)
    requires i < |s| && Continues(b, s[i])
    ensures Fold(b, u, NumberPrefix(b, s[i..])) ==
            Fold(b, (u * b + CharValue(b, s[i])) % W64, NumberPrefix(b, s[i + 1..]))
  {
    hide Continues;
    assert s[i..][1..] == s[i + 1..];
    var p := NumberPrefix(b, s[i + 1..]);
    assert ([s[i]] + p)[1..] == p;
  }

  lemma FoldEnds(b: Base, u: nat, s: Text, i: nat)
    requires u < W64 && i <= |s| && (i < |s| ==> !Continues(b, s[i]))
    ensures Fold(b, u, NumberPrefix(b, s[i..])) == u
  {
  }

  method Xtoi(str: Text) returns (u: nat)
    ensures u == Parsed(16, str)
  {
    hide Fold, NumberPrefix, Value;
    var i := SkipLeadingSpaces(str);
    ghost var p := NumberPrefix(16, str[i..]);
    u := 0;
    while true
      invariant i <= |str| && u < W64
      invariant Fold(16, u, NumberPrefix(16, str[i..])) == Fold(16, 0, p)
      decreases |str| - i
    {
      var c := At(str, i);
      if c == 0 {
        FoldEnds(16, u, str, i);
        break;
      }
      c := Upper(c);
      if IsDigit(c) {
        FoldNext(16, u, str, i);
        ShiftOr(u, DigitValue(c));
        u := u * 16 % W64 + DigitValue(c);
      } else {
        FoldEnds(16, u, str, i);
        break;
      }
      i := i + 1;
    }
    FoldIsValue(16, p);
  }

  method Atoi(str: Text) returns (u: nat)
    ensures u == Parsed(10, str)
  {
    hide Fold, NumberPrefix, Value;
    var i := SkipLeadingSpaces(str);
    ghost var p := NumberPrefix(10, str[i..]);
    u := 0;
    while true
      invariant i <= |str| && u < W64
      invariant Fold(10, u, NumberPrefix(10, str[i..])) == Fold(10, 0, p)
      decreases |str| - i
    {
      var c := At(str, i);
      if c == 0 {
        FoldEnds(10, u, str, i);
        break;
      }
      if ZERO <= c <= NINE {
        FoldNext(10, u, str, i);
        u := (u * 10 + c - ZERO) % W64;
      } else {
        FoldEnds(10, u, str, i);
        break;
      }
      i := i + 1;
    }
    FoldIsValue(10, p);
  }

  // ----- ValueToHex -----

  /** A zero-terminated text at the start of a buffer. */
  ghost predicate HoldsText(m: seq<Char16>, t: Text) {
    |t| < |m| && m[..|t|] == t && m[|t|] == 0
  }

  function Pow(b: Base, n: nat): nat {
    if n == 0 then 1 else b * Pow(b, n - 1)
  }

  /** A number below `b^n` has at most `n` digits. */
  lemma {:induction false} DigitsBound(b: Base, v: nat, n: nat)
    requires v < Pow(b, n)
    ensures |Digits(b, v)| <= n
    decreases n
  {
    if v == 0 {
    } else {
      DigitsBound(b, v / b, n - 1);
    }
  }

  lemma PowHex()
    ensures Pow(16, 16) == W64
  {
    assert Pow(16, 4) == 0x1_0000;
    assert Pow(16, 8) == 0x1_0000_0000;
    assert Pow(16, 12) == 0x1_0000_0000_0000;
  }

  lemma PowDec()
    ensures Pow(10, 20) > W64
  {
    assert Pow(10, 5) == 100000;
    assert Pow(10, 10) == 10000000000;
    assert Pow(10, 15) == 1000000000000000;
  }

  function Reverse(s: Text): (r: Text)
    ensures |r| == |s| && forall i :: 0 <= i < |s| ==> r[i] == s[|s| - 1 - i]
  {
    if s == [] then [] else Reverse(s[1..]) + [s[0]]
  }

  /** The first loop: digits come out lowest first. */
  method HexDigits(str: array<Unit>, value: nat) returns (n: nat)
    requires value < W64 && 16 <= str.Length
    modifies str
    ensures n == |Digits(16, value)| <= 16
    ensures Reverse(str[..n]) == Digits(16, value)
  {
    hide Digits, Digit, Reverse, Pow;
    PowHex();
    DigitsBound(16, value, 16);
    var v: nat := value;
    n := 0;
    assert Digits(16, v) + Reverse(str[..0]) == Digits(16, v) by { assert Reverse(str[..0]) == []; }
    while v != 0
      invariant n + |Digits(16, v)| == |Digits(16, value)|
      invariant Digits(16, value) == Digits(16, v) + Reverse(str[..n])
    {
      LastDigit(16, v);
      str[n] := Digit(v % 16);
      ReverseSnoc(str[..n], str[n]);
      assert str[..n + 1] == str[..n] + [str[n]];
      v := v / 16;
      n := n + 1;
    }
    NoDigits(16);
  }

  /** The second loop: the digits go out again, last first, and the text is closed. */
  method CopyBack(buffer: array<Char16>, str: array<Unit>, n: nat)
    requires n <= str.Length && n < buffer.Length
    modifies buffer
    ensures HoldsText(buffer[..], Reverse(str[..n]))
    ensures buffer[n + 1..] == old(buffer[n + 1..])
  {
    var p1, p2 := n, 0;
    while p1 != 0
      invariant 0 <= p1 <= n && p2 == n - p1
      invariant forall i :: 0 <= i < p2 ==> buffer[i] == str[n - 1 - i]
      invariant buffer[n + 1..] == old(buffer[n + 1..])
    {
      p1 := p1 - 1;
      buffer[p2] := str[p1];
      p2 := p2 + 1;
    }
    buffer[p2] := 0;
    assert buffer[..n] == Reverse(str[..n]);
  }

  method ValueToHex(buffer: array<Char16>, v: nat)
    requires v < W64 && 17 <= buffer.Length
    modifies buffer
    ensures HoldsText(buffer[..], Numeral(16, v))
    ensures var t := Numeral(16, v); |t| < buffer.Length && buffer[..|t|] == t && buffer[|t|] == 0
  {
    hide Digits, Reverse;
    if v == 0 {
      buffer[0], buffer[1] := ZERO, 0;
      return;
    }
    var str := new Unit[30](_ => ZERO);
    var n := HexDigits(str, v);
    CopyBack(buffer, str, n);
  }

  lemma LastDigit(b: Base, v: nat)
    requires v > 0
    ensures Digits(b, v) == Digits(b, v / b) + [Digit(v % b)]
  {
  }

  lemma NoDigits(b: Base)
    ensures Digits(b, 0) == []
  {
  }

  lemma {:induction false} ReverseSnoc(s: Text, c: Unit)
    ensures Reverse(s + [c]) == [c] + Reverse(s)
  {
    if s == [] {
    } else {
      assert (s + [c])[1..] == s[1..] + [c];
      ReverseSnoc(s[1..], c);
    }
  }

  // ----- ValueToString -----

  /** The separator that stands before a run of `n` further digits. */
  function Separator(comma: bool, n: nat): Text {
    if comma && n > 0 && n % 3 == 0 then [COMMA] else []
  }

  /** Digits with a comma wherever a multiple of three, and not zero, of them follow. */
  function Grouped(comma: bool, ds: Text): Text {
    if ds == [] then [] else [ds[0]] + Separator(comma, |ds| - 1) + Grouped(comma, ds[1..])
  }

  function Magnitude(v: int): nat {
    if v < 0 then -v else v
  }

  /** The text of a signed number. */
  function Signed(comma: bool, v: int): Text {
    if v == 0 then [ZERO]
    else (if v < 0 then [DASH] else []) + Grouped(comma, Digits(10, Magnitude(v)))
  }

  /** What a 64-bit value is printed as: hexadecimal, or decimal by way of a signed number. */
  function Printed(b: Base, comma: bool, v: Word64): Text {
    if b == 16 then Numeral(16, v) else Signed(comma, AsInt64(v))
  }

  function Plain(s: Text): Text {
    if s == [] then [] else (if s[0] == COMMA then [] else [s[0]]) + Plain(s[1..])
  }

  lemma {:induction false} PlainConcat(a: Text, b: Text)
    ensures Plain(a + b) == Plain(a) + Plain(b)
  {
    if a == [] {
      assert a + b == b;
    } else {
      assert (a + b)[0] == a[0] && (a + b)[1..] == a[1..] + b;
      PlainConcat(a[1..], b);
    }
  }

  predicate NoCommas(s: Text) {
    forall i :: 0 <= i < |s| ==> s[i] != COMMA
  }

  lemma {:induction false} DigitsHaveNoCommas(b: Base, v: nat)
    ensures NoCommas(Digits(b, v))
  {
    if v == 0 {
    } else {
      DigitsHaveNoCommas(b, v / b);
    }
  }

  lemma PlainGroup(comma: bool, c: Unit, n: nat, rest: Text)
    requires c != COMMA
    ensures Plain([c] + Separator(comma, n) + rest) == [c] + Plain(rest)
  {
    PlainConcat([c] + Separator(comma, n), rest);
    PlainConcat([c], Separator(comma, n));
    assert Plain([c]) == [c] + Plain([]);
    PlainSeparator(comma, n);
  }

  /** Between digits `i - 1` and `i` of `n` there is a comma exactly when commas are on and
      `n - i` is a multiple of three; taking the commas out gives the digits back. */
  lemma CommaPlaces(comma: bool, ds: Text, i: nat) returns (before: Text)
    requires NoCommas(ds) && 0 < i < |ds|
    ensures before != [] && before[|before| - 1] == ds[i - 1] && Plain(before) == ds[..i]
    ensures Grouped(comma, ds)
            == before + (if comma && (|ds| - i) % 3 == 0 then [',' as int] else []) + Grouped(comma, ds[i..])
  {
    hide Grouped, Plain;
    before := BeforeDigit(comma, ds, i);
  }

  lemma {:induction false} BeforeDigit(comma: bool, ds: Text, i: nat) returns (before: Text)
    requires NoCommas(ds) && 0 < i < |ds|
    ensures before != [] && before[|before| - 1] == ds[i - 1] && Plain(before) == ds[..i]
    ensures Grouped(comma, ds) == before + Separator(comma, |ds| - i) + Grouped(comma, ds[i..])
  {
    hide Separator, Plain;
    if i == 1 {
      before := [ds[0]];
      PlainNothing(before);
      assert ds[..1] == [ds[0]];
    } else {
      var h := [ds[0]] + Separator(comma, |ds| - 1);
      var rest := BeforeDigit(comma, ds[1..], i - 1);
      before := h + rest;
      PlainGroup(comma, ds[0], |ds| - 1, rest);
      assert ds[..i] == [ds[0]] + ds[1..][..i - 1] && ds[1..][i - 1..] == ds[i..];
      var s, g := Separator(comma, |ds| - i), Grouped(comma, ds[i..]);
      assert h + (rest + s + g) == (h + rest) + s + g;
    }
  }

  lemma PlainNothing(s: Text)
    requires |s| == 1 && s[0] != COMMA
    ensures Plain(s) == s
  {
    assert Plain(s[1..]) == [];
  }

  lemma PlainSeparator(comma: bool, n: nat)
    ensures Plain(Separator(comma, n)) == []
  {
    if Separator(comma, n) != [] { assert Plain([COMMA]) == Plain([COMMA][1..]); }
  }

  lemma {:induction false} GroupedPlain(comma: bool, ds: Text)
    requires NoCommas(ds)
    ensures Plain(Grouped(comma, ds)) == ds
    ensures !comma ==> Grouped(comma, ds) == ds
  {
    if ds == [] {
    } else {
      GroupedPlain(comma, ds[1..]);
      PlainGroup(comma, ds[0], |ds| - 1, Grouped(comma, ds[1..]));
      assert ds == [ds[0]] + ds[1..];
    }
  }

  /** Two's complement: the unsigned reading of a 64-bit integer. */
  function Unsigned(v: int): nat
    requires MIN_I64 <= v < -MIN_I64
  {
    if v < 0 then v + W64 else v
  }

  method DecDigits(str: array<Unit>, value: nat) returns (n: nat)
    requires value <= -MIN_I64 && 20 <= str.Length
    modifies str
    ensures n == |Digits(10, value)| <= 20
    ensures Reverse(str[..n]) == Digits(10, value)
  {
    hide Digits, Digit, Reverse, Pow;
    PowDec();
    DigitsBound(10, value, 20);
    var v: nat := value;
    n := 0;
    assert Digits(10, v) + Reverse(str[..0]) == Digits(10, v) by { assert Reverse(str[..0]) == []; }
    while v != 0
      invariant v <= -MIN_I64 && n + |Digits(10, v)| == |Digits(10, value)|
      invariant Digits(10, value) == Digits(10, v) + Reverse(str[..n])
    {
      LastDigit(10, v);
      var q, r := Div64.DivU64x32(v, 10);
      DecimalDigit(r);
      str[n] := r + ZERO;
      ReverseSnoc(str[..n], str[n]);
      assert str[..n + 1] == str[..n] + [str[n]];
      v := q;
      n := n + 1;
    }
    NoDigits(10);
  }

  lemma DecimalDigit(d: nat)
    requires d < 10
    ensures Digit(d) == d + ZERO
  {
  }

  const CA: seq<nat> := [3, 1, 2]

  /** What the counter holds before digit `i` of `n`: one more than the digits left in the
      group, or a number no counting-down can exhaust. */
  predicate Counting(comma: bool, n: nat, i: nat, c: nat) {
    if !comma then c + i == 1000
    else if i == 0 then c == (n - 1) % 3 + 2
    else i <= n && c == (n - i) % 3 + 1
  }

  /** The text still to come before digit `i`. */
  function Rest(comma: bool, ds: Text, i: nat): Text
    requires i <= |ds|
  {
    (if i > 0 then Separator(comma, |ds| - i) else []) + Grouped(comma, ds[i..])
  }

  lemma RestStep(comma: bool, ds: Text, i: nat)
    requires i < |ds|
    ensures Rest(comma, ds, i) ==
            (if i > 0 then Separator(comma, |ds| - i) else []) + [ds[i]] + Rest(comma, ds, i + 1)
  {
    assert ds[i..][1..] == ds[i + 1..];
  }

  /** `*(p2++) = c` */
  method Put(buffer: array<Char16>, ghost start: nat, p2: nat, c: Unit) returns (next: nat)
    requires start <= p2 < buffer.Length
    modifies buffer
    ensures next == p2 + 1
    ensures buffer[start..next] == old(buffer[start..p2]) + [c] && buffer[..start] == old(buffer[..start])
  {
    buffer[p2] := c;
    next := p2 + 1;
  }

  /** The next digit, after a comma when the counter says so. */
  method PutDigit(buffer: array<Char16>, ghost start: nat, p2: nat, c0: nat, digit: Unit, ghost done: seq<Char16>)
    returns (next: nat, c: nat)
    requires start <= p2 && buffer.Length >= p2 && buffer[start..p2] == done
    requires c0 > 0 && p2 + (if c0 == 1 then 1 else 0) < buffer.Length
    modifies buffer
    ensures c == if c0 == 1 then 3 else c0 - 1
    ensures next == p2 + (if c0 == 1 then 2 else 1) <= buffer.Length
    ensures buffer[start..next] == done + (if c0 == 1 then [COMMA] else []) + [digit]
    ensures buffer[..start] == old(buffer[..start])
  {
    next, c := p2, c0 - 1;
    if c == 0 {
      next := Put(buffer, start, next, COMMA);
      c := 3;
    }
    next := Put(buffer, start, next, digit);
  }

  /** The second loop of ValueToString, which writes from `p2` on. */
  method GroupBack(buffer: array<Char16>, start: nat, comma: bool, str: array<Unit>, n: nat, ghost ds: Text)
    returns (end: nat)
    requires 0 < n <= 20 && n <= str.Length && start + |Grouped(comma, ds)| < buffer.Length
    requires |ds| == n && forall i :: 0 <= i < n ==> ds[i] == str[n - 1 - i]
    modifies buffer
    ensures end == start + |Grouped(comma, ds)|
    ensures buffer[start..end] == Grouped(comma, ds) && buffer[end] == 0
    ensures buffer[..start] == old(buffer[..start])
  {
    hide Grouped, Separator, Rest, Counting;
    var p1, p2 := n, start;
    var c := (if comma then CA[n % 3] else 999) + 1;
    FirstCount(comma, n, c);
    RestBegins(comma, ds);
    ghost var done: seq<Char16> := [];
    assert done + Rest(comma, ds, 0) == Grouped(comma, ds);
    while p1 != 0
      invariant 0 <= p1 <= n && p2 == start + |done| < buffer.Length && Counting(comma, n, n - p1, c)
      invariant done + Rest(comma, ds, n - p1) == Grouped(comma, ds) && buffer[start..p2] == done
      invariant buffer[..start] == old(buffer[..start])
    {
      ghost var i := n - p1;
      CountStep(comma, n, i, c);
      GroupRound(comma, ds, done, i, if c == 1 then [COMMA] else []);
      ghost var done' := done + (if c == 1 then [COMMA] else []) + [ds[i]];
      p1 := p1 - 1;
      p2, c := PutDigit(buffer, start, p2, c, str[p1], done);
      done := done';
    }
    RestEnds(comma, ds);
    assert done == Grouped(comma, ds);
    buffer[p2] := 0;
    end := p2;
  }

  lemma GroupRound(comma: bool, ds: Text, done: seq<Char16>, i: nat, sep: seq<Char16>)
    requires i < |ds| && done + Rest(comma, ds, i) == Grouped(comma, ds)
    requires sep == if i > 0 then Separator(comma, |ds| - i) else []
    ensures (done + sep + [ds[i]]) + Rest(comma, ds, i + 1) == Grouped(comma, ds)
    ensures |done| + |sep| < |Grouped(comma, ds)|
  {
    hide Grouped, Separator, Rest;
    RestStep(comma, ds, i);
    Regroup(done, sep, ds[i], Rest(comma, ds, i + 1));
  }

  lemma Regroup(done: seq<Char16>, sep: seq<Char16>, d: Char16, rest: seq<Char16>)
    ensures done + (sep + [d] + rest) == (done + sep + [d]) + rest
    ensures |done + sep| <= |done + (sep + [d] + rest)| - 1
  {
  }

  lemma FirstCount(comma: bool, n: nat, c: nat)
    requires n > 0 && c == (if comma then CA[n % 3] else 999) + 1
    ensures Counting(comma, n, 0, c)
  {
  }

  lemma CountStep(comma: bool, n: nat, i: nat, c: nat)
    requires i < n <= 20 && Counting(comma, n, i, c)
    ensures c >= 1
    ensures (if i > 0 then Separator(comma, n - i) else []) == (if c == 1 then [COMMA] else [])
    ensures Counting(comma, n, i + 1, if c == 1 then 3 else c - 1)
  {
  }

  lemma RestBegins(comma: bool, ds: Text)
    ensures Rest(comma, ds, 0) == Grouped(comma, ds)
  {
    assert ds[0..] == ds;
  }

  lemma RestEnds(comma: bool, ds: Text)
    requires ds != []
    ensures Rest(comma, ds, |ds|) == []
  {
  }

  /** The library's scratch buffers hold 100 characters; a signed 64-bit number with commas
      needs 28 with its terminator. */
  method ValueToString(buffer: array<Char16>, comma: bool, v: int)
    requires MIN_I64 <= v < -MIN_I64 && 28 <= buffer.Length
    modifies buffer
    ensures HoldsText(buffer[..], Signed(comma, v))
    ensures var t := Signed(comma, v); |t| < buffer.Length && buffer[..|t|] == t && buffer[|t|] == 0
  {
    hide Digits, Reverse, Grouped;
    if v == 0 {
      buffer[0], buffer[1] := ZERO, 0;
      return;
    }
    var p2 := 0;
    var w := v;
    if v < 0 {
      buffer[p2] := DASH;
      p2 := p2 + 1;
      w := Negate(v);
    }
    var str := new Unit[40](_ => ZERO);
    var n := DecDigits(str, Unsigned(w));
    SomeDigits(10, Unsigned(w));
    GroupedLength(comma, Reverse(str[..n]));
    var end := GroupBack(buffer, p2, comma, str, n, Reverse(str[..n]));
    assert buffer[..end] == buffer[..p2] + buffer[p2..end];
    assert p2 == 1 ==> buffer[..p2] == [DASH];
  }

  /** `-v` in 64-bit two's complement: the least value is its own negation. */
  function Negate(v: int): int
    requires MIN_I64 <= v < -MIN_I64
  {
    if v == MIN_I64 then v else -v
  }

  lemma SomeDigits(b: Base, v: nat)
    requires v > 0
    ensures |Digits(b, v)| > 0
  {
  }

  lemma {:induction false} GroupedLength(comma: bool, ds: Text)
    ensures |Grouped(comma, ds)| <= |ds| + (if |ds| == 0 then 0 else (|ds| - 1) / 3)
  {
    hide Separator;
    if ds == [] {
    } else {
      GroupedLength(comma, ds[1..]);
      SeparatorLength(comma, |ds| - 1);
    }
  }

  lemma SeparatorLength(comma: bool, m: nat)
    ensures |Separator(comma, m)| + (if m == 0 then 0 else (m - 1) / 3) <= m / 3
  {
    var q, r := m / 3, m % 3;
    assert m == 3 * q + r;
  }

  // ----- Characters -----

  /** Which characters continue a number, and what they count for. */
  lemma CharactersMean(c: Char16)
    ensures Continues(16, c) <==>
            '0' as int <= c <= '9' as int || 'A' as int <= c <= 'F' as int || 'a' as int <= c <= 'f' as int
    ensures Continues(10, c) <==> '0' as int <= c <= '9' as int
    ensures '0' as int <= c <= '9' as int ==>
              CharValue(10, c) == c - '0' as int && CharValue(16, c) == c - '0' as int
    ensures 'A' as int <= c <= 'F' as int ==> CharValue(16, c) == c - 'A' as int + 10
    ensures 'a' as int <= c <= 'f' as int ==> CharValue(16, c) == c - 'a' as int + 10
  {
  }

  /** Numerals are written with upper-case digits and without leading zeros. */
  lemma {:induction false} DigitsMean(b: Base, v: nat)
    requires v > 0
    ensures Digits(b, v) != [] && Digits(b, v)[0] != '0' as int
    ensures forall i :: 0 <= i < |Digits(b, v)| ==>
              '0' as int <= Digits(b, v)[i] <= '9' as int || (b == 16 && 'A' as int <= Digits(b, v)[i] <= 'F' as int)
  {
    if v < b {
      assert v / b == 0;
      assert Digits(b, v) == [] + [Digit(v)];
    } else {
      DigitsMean(b, v / b);
    }
  }

  lemma NumeralMeans(b: Base, v: nat)
    ensures Numeral(b, 0) == ['0' as int]
    ensures Numeral(b, v) != [] && (v > 0 ==> Numeral(b, v)[0] != '0' as int)
    ensures forall i :: 0 <= i < |Numeral(b, v)| ==>
              '0' as int <= Numeral(b, v)[i] <= '9' as int || (b == 16 && 'A' as int <= Numeral(b, v)[i] <= 'F' as int)
    ensures AllContinue(b, Numeral(b, v)) && Value(b, Numeral(b, v)) == v
  {
    hide Digits, Value;
    NumeralValue(b, v);
    if v > 0 { DigitsMean(b, v); }
  }

  /** Numerals grow by one digit at a time, from those of one character. */
  lemma NumeralStep(v: nat, d: nat)
    ensures d < 10 ==> Numeral(10, d) == ['0' as int + d] && Numeral(16, d) == ['0' as int + d]
    ensures 10 <= d < 16 ==> Numeral(16, d) == ['A' as int + (d - 10)]
    ensures v > 0 && d < 10 ==> Numeral(10, 10 * v + d) == Numeral(10, v) + Numeral(10, d)
    ensures v > 0 && d < 16 ==> Numeral(16, 16 * v + d) == Numeral(16, v) + Numeral(16, d)
  {
    hide Digits;
    if d < 10 {
      OneDigit(10, d);
      if v > 0 { LastDigit(10, 10 * v + d); }
    }
    if d < 16 {
      OneDigit(16, d);
      if v > 0 { LastDigit(16, 16 * v + d); }
    }
  }

  lemma OneDigit(b: Base, d: nat)
    requires d < b
    ensures Numeral(b, d) == [Digit(d)]
  {
    hide Digits;
    NoDigits(b);
    if d > 0 {
      LastDigit(b, d);
      Small(b, d);
      assert [] + [Digit(d)] == [Digit(d)];
    }
  }

  lemma Small(b: Base, d: nat)
    requires d < b
    ensures d / b == 0 && d % b == d
  {
    if b == 10 {
    } else {
      assert b == 16;
    }
  }

  /** A negative number is a minus sign and the text of its magnitude; without commas, any other is
      its numeral. */
  lemma SignedMeans(comma: bool, v: int)
    ensures v < 0 ==> Signed(comma, v) == ['-' as int] + Signed(comma, -v)
    ensures v >= 0 ==> Signed(false, v) == Numeral(10, v)
    ensures v >= 0 ==> Plain(Signed(comma, v)) == Numeral(10, v)
  {
    hide Digits, Plain, Grouped;
    if v > 0 {
      PlainDigits(comma, v);
      PlainDigits(false, v);
      assert [] + Grouped(comma, Digits(10, v)) == Grouped(comma, Digits(10, v));
      assert [] + Grouped(false, Digits(10, v)) == Grouped(false, Digits(10, v));
    } else if v == 0 {
      PlainNothing([ZERO]);
    }
  }

  lemma PlainDigits(comma: bool, v: nat)
    ensures Plain(Grouped(comma, Digits(10, v))) == Digits(10, v)
    ensures Grouped(false, Digits(10, v)) == Digits(10, v)
  {
    hide Digits, Plain, Grouped;
    DigitsHaveNoCommas(10, v);
    GroupedPlain(comma, Digits(10, v));
    GroupedPlain(false, Digits(10, v));
  }

  /** Parsing begins behind the leading blanks. */
  lemma {:induction false} SkippingMeans(s: Text)
    ensures var t := SkipSpaces(s);
            && (t == [] || t[0] != ' ' as int) && |t| <= |s| && t == s[|s| - |t|..]
            && forall i :: 0 <= i < |s| - |t| ==> s[i] == ' ' as int
  {
    if s == [] || s[0] != SPACE {
    } else {
      SkippingMeans(s[1..]);
    }
  }

  /** It goes on as long as characters continue the number. */
  lemma {:induction false} ParsingMeans(b: Base, s: Text)
    ensures var p := NumberPrefix(b, s); p <= s && (p == s || !Continues(b, s[|p|]))
  {
    hide Continues;
    if s == [] || !Continues(b, s[0]) {
    } else {
      ParsingMeans(b, s[1..]);
    }
  }
}
