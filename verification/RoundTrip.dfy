/** Printing a number (gnu-efi/lib/print.c) and parsing it again (gnu-efi/lib/str.c): exactly
    when the number comes back. */
module RoundTrip {
  import opened Common
  import opened CText
  import opened NumberText
  import opened Format

  // ----- The number that a part of the printed text begins with -----

  /** Cutting a digit string makes its value smaller, unless it is zero. */
  lemma {:induction false} CutValue(b: Base, s: Text, i: nat)
    requires AllContinue(b, s) && i <= |s|
    ensures AllContinue(b, s[..i]) && Value(b, s[..i]) <= Value(b, s)
    ensures i < |s| && Value(b, s) > 0 ==> Value(b, s[..i]) < Value(b, s)
    decreases |s|
  {
    hide Continues, CharValue;
    if i == |s| {
      assert s[..i] == s;
    } else {
      var t := s[..|s| - 1];
      CutValue(b, t, i);
      assert t[..i] == s[..i];
    }
  }

  lemma WholePrefix(b: Base, s: Text)
    requires AllContinue(b, s)
    ensures NumberPrefix(b, s) == s
  {
    hide Continues;
    PrefixOfNumber(b, s, []);
    assert s + [] == s;
  }

  lemma CommaStops()
    ensures !Continues(10, COMMA)
  {
  }

  /** The digits in front of the first comma, or of a cut: all of them only without a cut and
      with at most three digits. */
  lemma {:induction false} GroupedPrefix(comma: bool, ds: Text, len: nat) returns (i: nat)
    requires AllContinue(10, ds) && len <= |Grouped(comma, ds)|
    ensures i <= |ds| && NumberPrefix(10, Grouped(comma, ds)[..len]) == ds[..i]
    ensures i == |ds| <==> len == |Grouped(comma, ds)| && (comma ==> |ds| <= 3)
  {
    hide Continues;
    CommaStops();
    if ds == [] || len == 0 {
      i := 0;
    } else {
      var rest := ds[1..];
      var sep, g := Separator(comma, |rest|), Grouped(comma, rest);
      var all := Grouped(comma, ds);
      assert all == [ds[0]] + (sep + g);
      assert all[..len][1..] == (sep + g)[..len - 1];
      if sep != [] {
        i := 1;
        assert len > 1 ==> (sep + g)[..len - 1][0] == COMMA;
      } else {
        var k := GroupedPrefix(comma, rest, len - 1);
        assert sep + g == g;
        i := 1 + k;
        assert ds[..i] == [ds[0]] + rest[..k];
      }
    }
  }

  lemma {:induction false} DigitsFill(b: Base, v: nat)
    ensures v < Pow(b, |Digits(b, v)|)
  {
    if v == 0 {
    } else {
      DigitsFill(b, v / b);
      NextPower(b, v, Pow(b, |Digits(b, v / b)|));
    }
  }

  lemma NextPower(b: Base, v: nat, p: nat)
    requires v / b < p
    ensures v < b * p
  {
    assert v == b * (v / b) + v % b;
    assert b * (v / b + 1) <= b * p;
  }

  lemma PowMonotone(b: Base, m: nat, n: nat)
    requires m <= n
    ensures Pow(b, m) <= Pow(b, n)
    decreases n
  {
    if m == n {
    } else {
      PowMonotone(b, m, n - 1);
    }
  }

  lemma ThreeDigits(v: nat)
    ensures |Digits(10, v)| <= 3 <==> v < 1000
  {
    hide Digits;
    assert Pow(10, 3) == 1000;
    if v < 1000 {
      DigitsBound(10, v, 3);
    } else if |Digits(10, v)| <= 3 {
      DigitsFill(10, v);
      PowMonotone(10, |Digits(10, v)|, 3);
    }
  }

  /** When the number that the first `len` characters of a printed value begin with is the value
      itself: they are all of them, the signed routine has not made it negative, and no comma
      stands in the way. */
  ghost predicate ComesBack(b: Base, comma: bool, v: Word64, len: nat) {
    v == 0 || (len == |Printed(b, comma, v)| && (b == 10 ==> v < -MIN_I64 && (comma ==> v < 1000)))
  }

  lemma PrintedPrefix(b: Base, comma: bool, v: Word64, len: nat)
    requires len <= |Printed(b, comma, v)|
    ensures var x := Value(b, NumberPrefix(b, Printed(b, comma, v)[..len]));
            && x <= v && (x == v <==> ComesBack(b, comma, v, len))
            && (b == 10 && v >= -MIN_I64 ==> x == 0)
  {
    hide Digits, Continues, Grouped, Value, NumberPrefix;
    var t := Printed(b, comma, v)[..len];
    if v == 0 || b == 16 {
      assert Printed(b, comma, v) == Numeral(b, v);
      NumeralPrefix(b, v, len);
    } else if v < -MIN_I64 {
      var ds := Digits(10, v);
      DigitsValue(10, v);
      assert Printed(b, comma, v) == Grouped(comma, ds);
      var i := GroupedPrefix(comma, ds, len);
      CutValue(10, ds, i);
      assert ds[..|ds|] == ds;
      ThreeDigits(v);
    } else {
      assert len > 0 ==> t[0] == DASH;
      NoNumber(t);
    }
  }

  lemma NumeralPrefix(b: Base, v: nat, len: nat)
    requires len <= |Numeral(b, v)|
    ensures var x := Value(b, NumberPrefix(b, Numeral(b, v)[..len]));
            x <= v && (x == v <==> v == 0 || len == |Numeral(b, v)|)
  {
    hide Numeral, Continues, Value, NumberPrefix;
    var s := Numeral(b, v);
    NumeralValue(b, v);
    CutValue(b, s, len);
    WholePrefix(b, s[..len]);
    assert s[..|s|] == s;
  }

  lemma NoNumber(t: Text)
    requires t == [] || t[0] == DASH
    ensures Value(10, NumberPrefix(10, t)) == 0
  {
  }

  // ----- Parsing what was printed -----

  lemma {:induction false} PrefixStops(b: Base, x: Text, tail: Text)
    requires tail != [] ==> !Continues(b, tail[0])
    ensures NumberPrefix(b, x + tail) == NumberPrefix(b, x)
    decreases |x|
  {
    if x == [] {
      assert x + tail == tail;
    } else {
      assert (x + tail)[0] == x[0] && (x + tail)[1..] == x[1..] + tail;
      PrefixStops(b, x[1..], tail);
    }
  }

  lemma {:induction false} PrefixGrows(b: Base, z: Text, x: Text)
    requires AllContinue(b, z)
    ensures NumberPrefix(b, z + x) == z + NumberPrefix(b, x)
    decreases |z|
  {
    if z == [] {
      assert z + x == x;
    } else {
      assert (z + x)[0] == z[0] && (z + x)[1..] == z[1..] + x;
      PrefixGrows(b, z[1..], x);
    }
  }

  lemma SpacesAdd(m: nat, n: nat)
    ensures Repeat(SPACE, m) + Repeat(SPACE, n) == Repeat(SPACE, m + n)
  {
  }

  /** Padding with spaces and zeros in front, and what does not continue the number behind, leave
      the parsed number alone. */
  lemma ParsePadded(b: Base, spaces: nat, zeros: nat, x: Text, tail: Text)
    requires x != [] ==> x[0] != SPACE
    requires tail != [] ==> !Continues(b, tail[0])
    requires x == [] ==> tail == Repeat(SPACE, |tail|)
    ensures Parsed(b, Repeat(SPACE, spaces) + (Repeat(ZERO, zeros) + x + tail)) == Value(b, NumberPrefix(b, x)) % W64
  {
    hide Value, Continues, NumberPrefix, SkipSpaces, Repeat;
    var z := Repeat(ZERO, zeros);
    var y := z + x + tail;
    if x == [] && zeros == 0 {
      assert y == tail && Repeat(SPACE, spaces + |tail|) + [] == Repeat(SPACE, spaces + |tail|);
      SpacesAdd(spaces, |tail|);
      SkipLeading(spaces + |tail|, []);
    } else {
      assert y[0] == if zeros > 0 then ZERO else x[0];
      SkipLeading(spaces, y);
      PrefixStops(b, z + x, tail);
      ZerosContinue(b, z);
      PrefixGrows(b, z, x);
      LeadingZeros(b, zeros, NumberPrefix(b, x));
    }
  }

  lemma ZerosContinue(b: Base, z: Text)
    requires z == Repeat(ZERO, |z|)
    ensures AllContinue(b, z)
  {
  }

  lemma NoLeadingSpace(b: Base, comma: bool, v: Word64)
    ensures Printed(b, comma, v) != [] && Printed(b, comma, v)[0] != SPACE
  {
    hide Digits;
    DigitsValue(b, v);
    DigitsValue(10, Magnitude(AsInt64(v)));
    if b == 10 && AsInt64(v) > 0 {
      SomeDigits(10, v);
      assert Grouped(comma, Digits(10, v))[0] == Digits(10, v)[0];
      NoSpace(10, Digits(10, v));
    } else if b == 16 {
      NumeralValue(16, v);
      NoSpace(16, Numeral(16, v));
    }
  }

  /** Parsing a printed 64-bit value gives it back exactly in hexadecimal, or in decimal below
      2^63 and, with commas, below 1000; what was printed as negative parses as zero. */
  lemma PrintParse(b: Base, comma: bool, v: Word64, tail: Text)
    requires tail != [] ==> !Continues(b, tail[0])
    ensures Parsed(b, Printed(b, comma, v) + tail) == v <==> b == 16 || (v < -MIN_I64 && (comma ==> v < 1000))
    ensures b == 10 && v >= -MIN_I64 ==> Parsed(b, Printed(b, comma, v) + tail) == 0
  {
    hide Parsed, Printed, Continues, Value, NumberPrefix, Repeat;
    var t := Printed(b, comma, v);
    NoLeadingSpace(b, comma, v);
    ParsePadded(b, 0, 0, t, tail);
    assert Repeat(SPACE, 0) + (Repeat(ZERO, 0) + t + tail) == t + tail;
    PrintedPrefix(b, comma, v, |t|);
    assert t[..|t|] == t;
  }

  // ----- Printing through a field -----

  /** The item a number is printed through. */
  function NumberItem(b: Base, comma: bool, v: Word64, width: nat, fieldWidth: nat,
                      zeros: bool, padBefore: bool): Item
  {
    Item(Printed(b, comma, v), width, fieldWidth, if zeros then ZERO else SPACE, padBefore)
  }

  lemma FieldText(item: Item) returns (spaces: nat, zeros: nat)
    requires item.pad == ZERO || item.pad == SPACE
    ensures ItemText(item) == Repeat(SPACE, spaces)
              + (Repeat(ZERO, zeros) + item.text[..item.Length()] + Repeat(SPACE, item.After()))
  {
    hide Repeat, Item.Before, Item.Padding, Item.After;
    var x, tail := item.text[..item.Length()], Repeat(SPACE, item.After());
    spaces, zeros := item.Before(), item.Padding();
    if item.pad == ZERO {
      Regroup(Repeat(SPACE, spaces), Repeat(ZERO, zeros), x, tail);
    } else {
      SpacesAdd(spaces, zeros);
      spaces, zeros := spaces + zeros, 0;
      assert Repeat(SPACE, spaces) + Repeat(ZERO, 0) == Repeat(SPACE, spaces);
      Regroup(Repeat(SPACE, spaces), Repeat(ZERO, 0), x, tail);
    }
  }

  lemma Regroup(a: Text, b: Text, c: Text, d: Text)
    ensures a + b + c + d == a + (b + c + d)
  {
  }

  /** A number printed as a field of any width, padded with zeros or spaces on any side, is parsed
      back exactly when it is zero, or the field width does not cut it and its text without
      padding would be parsed back. */
  lemma FieldParse(b: Base, comma: bool, v: Word64, width: nat, fieldWidth: nat, zeros: bool, padBefore: bool)
    ensures var r := Parsed(b, ItemText(NumberItem(b, comma, v, width, fieldWidth, zeros, padBefore)));
            && (r == v <==> v == 0 || (|Printed(b, comma, v)| <= fieldWidth
                                       && (b == 16 || (v < -MIN_I64 && (comma ==> v < 1000)))))
            && (b == 10 && v >= -MIN_I64 ==> r == 0)
  {
    hide ItemText, Parsed, Printed, Repeat, Value, NumberPrefix;
    var item := NumberItem(b, comma, v, width, fieldWidth, zeros, padBefore);
    var x := item.text[..item.Length()];
    NoLeadingSpace(b, comma, v);
    var spaces, padding := FieldText(item);
    assert item.After() > 0 ==> Repeat(SPACE, item.After())[0] == SPACE;
    ParsePadded(b, spaces, padding, x, Repeat(SPACE, item.After()));
    PrintedPrefix(b, comma, v, item.Length());
  }

  /** What `%x` and `%u` print of a number is parsed back under the same conditions, whatever flags
      and widths come before. */
  lemma DirectiveParse(b: Base, spec: Spec, v: Word64, fmt: Text, args: seq<Arg>, attrs: Attrs)
    requires spec.pad == ZERO || spec.pad == SPACE
    ensures var c: Unit := if b == 16 then 'x' as int else 'u' as int;
            var n: Word64 := if spec.long then v else v % 0x1_0000_0000;
            var d := Directive([c] + fmt, spec, [Number(v)] + args, attrs);
            && d.Some? && d.value.fmt == fmt && d.value.args == args
            && (Parsed(b, d.value.text) == n
                <==> n == 0 || (|Printed(b, spec.comma, n)| <= spec.fieldWidth
                                && (b == 16 || (n < -MIN_I64 && (spec.comma ==> n < 1000)))))
  {
    hide ItemText, Parsed, Printed;
    var c: Unit := if b == 16 then 'x' as int else 'u' as int;
    var f, a := [c] + fmt, [Number(v)] + args;
    assert f[0] == c && f[1..] == fmt && a[0] == Number(v) && a[1..] == args;
    var n: Word64 := if spec.long then v else v % 0x1_0000_0000;
    FieldParse(b, spec.comma, n, spec.width, spec.fieldWidth, spec.pad == ZERO, spec.padBefore);
    PrintedHex(n, spec.comma);
  }

  lemma PrintedHex(n: Word64, comma: bool)
    ensures Printed(16, comma, n) == Numeral(16, n)
  {
  }
}
