/** What the directives of a format (gnu-efi/lib/print.c) print, character by character. */
module FormatMeaning {
  import opened Common
  import opened CText
  import opened NumberText
  import opened Format
  import opened RoundTrip

  // ----- The letters -----

  /** Flags: a zero sets the padding, a minus sign moves the blanks behind, a comma groups, a point
      directs the next width to the field, an `l` makes the number a long one, and a star takes a
      width from the arguments. */
  lemma FlagsMean(fmt: Text, spec: Spec, args: seq<Arg>, attrs: Attrs, w: Word64)
    ensures Directive(['0' as int] + fmt, spec, args, attrs) == Directive(fmt, spec.(pad := '0' as int), args, attrs)
    ensures Directive(['-' as int] + fmt, spec, args, attrs) == Directive(fmt, spec.(padBefore := false), args, attrs)
    ensures Directive([',' as int] + fmt, spec, args, attrs) == Directive(fmt, spec.(comma := true), args, attrs)
    ensures Directive(['.' as int] + fmt, spec, args, attrs) == Directive(fmt, spec.(toField := true), args, attrs)
    ensures Directive(['l' as int] + fmt, spec, args, attrs) == Directive(fmt, spec.(long := true), args, attrs)
    ensures Directive(['*' as int] + fmt, spec, [Number(w)] + args, attrs)
            == Directive(fmt, if spec.toField then spec.(fieldWidth := w) else spec.(width := w), args, attrs)
  {
    hide Directive, ItemText;
    OneCharacter('0' as int, fmt, spec, args, attrs);
    OneCharacter('-' as int, fmt, spec, args, attrs);
    OneCharacter(',' as int, fmt, spec, args, attrs);
    OneCharacter('.' as int, fmt, spec, args, attrs);
    OneCharacter('l' as int, fmt, spec, args, attrs);
    OneCharacter('*' as int, fmt, spec, [Number(w)] + args, attrs);
    assert ([Number(w)] + args)[0] == Number(w) && ([Number(w)] + args)[1..] == args;
  }

  /** A character that Act takes as one more of the directive is passed over. */
  lemma OneCharacter(c: Unit, fmt: Text, spec: Spec, args: seq<Arg>, attrs: Attrs)
    requires !('1' as int <= c <= '9' as int)
    ensures var act := Act(c, spec, args, attrs);
            act.More? ==> Directive([c] + fmt, spec, args, attrs) == Directive(fmt, act.spec, act.args, attrs)
  {
    hide Act, ItemText;
    assert ([c] + fmt)[0] == c && ([c] + fmt)[1..] == fmt;
  }

  /** Attributes: small letters go on with the directive; capital ones end it without text, unless
      the attribute is zero, as it is for a string. */
  lemma AttributesMean(c: Unit, fmt: Text, spec: Spec, args: seq<Arg>, attrs: Attrs)
    ensures c == 'n' as int || c == 'h' as int || c == 'e' as int ==>
              Directive([c] + fmt, spec, args, attrs) == Directive(fmt, spec, args, attrs)
    ensures c == 'N' as int || c == 'H' as int || c == 'E' as int ==>
              var attr := if c == 'N' as int then attrs.norm
                          else if c == 'H' as int then attrs.highlight else attrs.error;
              Directive([c] + fmt, spec, args, attrs)
              == if attr == 0 then Directive(fmt, spec, args, attrs) else Some(Done([], fmt, args))
  {
    hide ItemText;
    assert ([c] + fmt)[0] == c && ([c] + fmt)[1..] == fmt;
  }

  /** A width is its value. */
  lemma WidthMeans(w: nat, fmt: Text, spec: Spec, args: seq<Arg>, attrs: Attrs)
    requires 0 < w < 0x1_0000_0000_0000_0000
    requires fmt != [] ==> !('0' as int <= fmt[0] <= '9' as int)
    ensures Directive(Digits(10, w) + fmt, spec, args, attrs)
            == Directive(fmt, if spec.toField then spec.(fieldWidth := w) else spec.(width := w), args, attrs)
  {
    hide Digits, Value, Continues, NumberPrefix, Act, ItemText;
    var d := Digits(10, w);
    DigitsValue(10, w);
    DigitsMean(10, w);
    CharactersMean(if fmt == [] then 0 else fmt[0]);
    PrefixOfNumber(10, d, fmt);
    assert (d + fmt)[0] == d[0] && (d + fmt)[|d|..] == fmt;
  }

  /** Conversions of numbers. A number that is not long is its low 32 bits; `d` reads them as a
      signed number, `u` prints as if it were signed in 64 bits. */
  lemma NumbersMean(c: Unit, fmt: Text, spec: Spec, v: Word64, args: seq<Arg>, attrs: Attrs, n: Word64, s: int)
    requires n == if spec.long then v else v % 0x1_0000_0000
    requires if c == 'd' as int && !spec.long then s % 0x1_0000_0000 == n && -0x8000_0000 <= s < 0x8000_0000
             else s % 0x1_0000_0000_0000_0000 == n && -0x8000_0000_0000_0000 <= s < 0x8000_0000_0000_0000
    ensures var d := Directive([c] + fmt, spec, [Number(v)] + args, attrs);
            && (c == 'x' as int ==>
                  d == Some(Done(ItemText(Item(Numeral(16, n), spec.width, spec.fieldWidth, spec.pad, spec.padBefore)),
                                 fmt, args)))
            && (c == 'X' as int ==>
                  d == Some(Done(ItemText(Item(Numeral(16, n), if spec.long then 16 else 8, spec.fieldWidth, '0' as int,
                                               spec.padBefore)), fmt, args)))
            && (c == 'u' as int || c == 'd' as int ==>
                  d == Some(Done(ItemText(Item(Signed(spec.comma, s), spec.width, spec.fieldWidth, spec.pad,
                                               spec.padBefore)), fmt, args)))
  {
    hide ItemText, Numeral, Signed;
    assert ([c] + fmt)[0] == c && ([c] + fmt)[1..] == fmt;
    assert ([Number(v)] + args)[0] == Number(v) && ([Number(v)] + args)[1..] == args;
    TwosComplement(n, s);
  }

  lemma TwosComplement(n: Word64, s: int)
    ensures s % 0x1_0000_0000_0000_0000 == n && -0x8000_0000_0000_0000 <= s < 0x8000_0000_0000_0000 ==>
              s == AsInt64(n)
    ensures n < 0x1_0000_0000 && s % 0x1_0000_0000 == n && -0x8000_0000 <= s < 0x8000_0000 ==> s == AsSigned(false, n)
  {
  }

  /** Conversions of texts and characters. */
  lemma TextsMean(c: Unit, fmt: Text, spec: Spec, t: Text, v: Word64, args: seq<Arg>, attrs: Attrs)
    ensures c == '%' as int ==> Prints(['%' as int], [c] + fmt, fmt, spec, args, args, attrs)
    ensures c == 's' as int || c == 'a' as int ==>
              Prints(t, [c] + fmt, fmt, spec, [String(Some(t))] + args, args, attrs)
    ensures c == 's' as int || c == 'a' as int ==>
              Prints(['(' as int, 'n' as int, 'u' as int, 'l' as int, 'l' as int, ')' as int],
                     [c] + fmt, fmt, spec, [String(None)] + args, args, attrs)
    ensures c == 'c' as int ==>
              Prints(if v % 0x1_0000 == 0 then [] else [v % 0x1_0000],
                     [c] + fmt, fmt, spec, [Number(v)] + args, args, attrs)
    ensures c == 'D' as int ==>
              Prints(if |t| < 100 then t else t[..99], [c] + fmt, fmt, spec, [Converted(t)] + args, args, attrs)
    ensures c == 'g' as int || c == 'f' as int || c == 't' as int || c == 'r' as int ==>
              Prints(t, [c] + fmt, fmt, spec, [Converted(t)] + args, args, attrs)
  {
    hide ItemText, Numeral, Signed;
    assert ([c] + fmt)[0] == c && ([c] + fmt)[1..] == fmt;
    forall x: Arg ensures ([x] + args)[0] == x && ([x] + args)[1..] == args {
    }
  }

  /** Any other character prints a question mark. */
  lemma OthersMean(c: Unit, fmt: Text, spec: Spec, args: seq<Arg>, attrs: Attrs)
    requires c != '%' as int && c != '0' as int && c != '-' as int && c != ',' as int && c != '.' as int
    requires c != '*' as int && c != 'l' as int && c != 'a' as int && c != 'c' as int && c != 's' as int
    requires c != 'x' as int && c != 'X' as int && c != 'u' as int && c != 'd' as int && c != 'g' as int
    requires c != 'D' as int && c != 'f' as int && c != 't' as int && c != 'r' as int && c != 'n' as int
    requires c != 'h' as int && c != 'e' as int && c != 'N' as int && c != 'H' as int && c != 'E' as int
    requires !('1' as int <= c <= '9' as int)
    ensures Prints(['?' as int], [c] + fmt, fmt, spec, args, args, attrs)
  {
    hide ItemText;
    assert ([c] + fmt)[0] == c && ([c] + fmt)[1..] == fmt;
  }

  /** The directive that `from` begins with prints the field of `text`, and leaves `fmt` and `rest`. */
  ghost predicate Prints(text: Text, from: Text, fmt: Text, spec: Spec, args: seq<Arg>, rest: seq<Arg>, attrs: Attrs) {
    Directive(from, spec, args, attrs)
    == Some(Done(ItemText(Item(text, spec.width, spec.fieldWidth, spec.pad, spec.padBefore)), fmt, rest))
  }

  // ----- The text of a field -----

  /** Without a field width, the padding brings the text to the width, in front. */
  lemma PaddedText(t: Text, width: nat, pad: Unit, padBefore: bool)
    requires |t| < 0xFFFF_FFFF_FFFF_FFFF
    ensures ItemText(Item(t, width, 0xFFFF_FFFF_FFFF_FFFF, pad, padBefore))
            == Repeat(pad, if |t| < width then width - |t| else 0) + t
  {
    var item := Item(t, width, 0xFFFF_FFFF_FFFF_FFFF, pad, padBefore);
    assert t[..|t|] == t && item.Before() == item.After() == 0;
    assert Repeat(SPACE, 0) == [];
  }

  /** With a field width alone, the text is cut to it or brought to it with blanks, in front or
      behind. */
  lemma FieldedText(t: Text, fieldWidth: nat, pad: Unit, padBefore: bool)
    requires fieldWidth < 0xFFFF_FFFF_FFFF_FFFF
    ensures var r := ItemText(Item(t, 0, fieldWidth, pad, padBefore));
            && |r| == fieldWidth
            && (fieldWidth <= |t| ==> r == t[..fieldWidth])
            && (fieldWidth > |t| ==>
                  var blanks := Repeat(' ' as int, fieldWidth - |t|);
                  r == if padBefore then blanks + t else t + blanks)
  {
    hide Repeat;
    var item := Item(t, 0, fieldWidth, pad, padBefore);
    NoneRepeated(SPACE);
    NoneRepeated(pad);
    if fieldWidth > |t| { assert t[..|t|] == t; }
    RepeatLength(SPACE, item.Before());
    RepeatLength(SPACE, item.After());
  }

  /** With both widths: cut to the field width, brought to the width with the padding, and then to
      the field width with blanks. */
  lemma FieldOfTwoWidths(t: Text, width: nat, fieldWidth: nat, pad: Unit, padBefore: bool)
    requires fieldWidth < 0xFFFF_FFFF_FFFF_FFFF
    ensures var cut := if |t| < fieldWidth then t else t[..fieldWidth];
            var padded := Repeat(pad, if |cut| < width then width - |cut| else 0) + cut;
            var blanks := Repeat(' ' as int, if |padded| < fieldWidth then fieldWidth - |padded| else 0);
            ItemText(Item(t, width, fieldWidth, pad, padBefore))
            == if padBefore then blanks + padded else padded + blanks
  {
    hide Repeat;
    var item := Item(t, width, fieldWidth, pad, padBefore);
    NoneRepeated(SPACE);
    RepeatLength(pad, item.Padding());
    var cut := if |t| < fieldWidth then t else t[..fieldWidth];
    assert t[..item.Length()] == cut;
    var blanks, padding := Repeat(SPACE, item.Spaces()), Repeat(pad, item.Padding());
    assert [] + padding + cut + blanks == (padding + cut) + blanks;
    assert blanks + padding + cut + [] == blanks + (padding + cut);
  }

  lemma NoneRepeated(c: Unit)
    ensures Repeat(c, 0) == []
  {
  }

  lemma RepeatLength(c: Unit, n: nat)
    ensures |Repeat(c, n)| == n
  {
  }

  // ----- Whole formats -----

  /** A format of one directive prints what the directive does. */
  lemma OneDirective(fmt: Text, args: seq<Arg>, attrs: Attrs, text: Text, rest: seq<Arg>)
    requires Directive(fmt, NEW_SPEC, args, attrs) == Some(Done(text, [], rest))
    ensures Render(['%' as int] + fmt, args, attrs) == Some(Done(text, [], rest))
  {
    hide Directive;
    var f := ['%' as int] + fmt;
    assert f[0] == PERCENT && f[1..] == fmt && text + [] == text;
  }

  lemma NumeralLength(b: Base, v: Word64)
    ensures |Numeral(b, v)| <= 20
  {
    hide Digits;
    if b == 16 {
      PowHex();
      DigitsBound(16, v, 16);
    } else {
      PowDec();
      DigitsBound(10, v, 20);
    }
  }

  /** The text of a format of one conversion, behind flags that come to `spec`. */
  lemma Formatted(c: Unit, flags: Text, spec: Spec, v: Word64, attrs: Attrs, n: Word64, s: int)
    requires Directive(flags + [c], NEW_SPEC, [Number(v)], attrs) == Directive([c], spec, [Number(v)], attrs)
    requires n == if spec.long then v else v % 0x1_0000_0000
    requires if c == 'd' as int && !spec.long then s % 0x1_0000_0000 == n && -0x8000_0000 <= s < 0x8000_0000
             else s % 0x1_0000_0000_0000_0000 == n && -0x8000_0000_0000_0000 <= s < 0x8000_0000_0000_0000
    requires c == 'x' as int || c == 'X' as int || c == 'u' as int || c == 'd' as int
    ensures var text := if c == 'x' as int || c == 'X' as int then Numeral(16, n) else Signed(spec.comma, s);
            var width := if c != 'X' as int then spec.width else if spec.long then 16 else 8;
            var pad := if c == 'X' as int then '0' as int else spec.pad;
            Render(['%' as int] + (flags + [c]), [Number(v)], attrs)
            == Some(Done(ItemText(Item(text, width, spec.fieldWidth, pad, spec.padBefore)), [], []))
  {
    hide Directive, Render, ItemText, Numeral, Signed;
    NumbersMean(c, [], spec, v, [], attrs, n, s);
    assert [c] + [] == [c] && [Number(v)] + [] == [Number(v)];
    var text := if c == 'x' as int || c == 'X' as int then Numeral(16, n) else Signed(spec.comma, s);
    var width := if c != 'X' as int then spec.width else if spec.long then 16 else 8;
    var pad := if c == 'X' as int then '0' as int else spec.pad;
    var printed := ItemText(Item(text, width, spec.fieldWidth, pad, spec.padBefore));
    OneDirective(flags + [c], [Number(v)], attrs, printed, []);
  }

  /** Without flags, or with an `l`. */
  lemma Unflagged(c: Unit, long: bool, v: Word64, attrs: Attrs)
    ensures var flags := if long then ['l' as int] else [];
            Directive(flags + [c], NEW_SPEC, [Number(v)], attrs)
            == Directive([c], NEW_SPEC.(long := long), [Number(v)], attrs)
  {
    hide Directive;
    FlagsMean([c], NEW_SPEC, [Number(v)], attrs, 0);
    assert [] + [c] == [c];
  }

  /** `%x` and `%lx`: the numeral of the low 32 bits, or of the whole number, which parsing gives
      back. */
  lemma HexMeans(long: bool, v: Word64, attrs: Attrs)
    ensures var n := if long then v else v % 0x1_0000_0000;
            var fmt := if long then ['%' as int, 'l' as int, 'x' as int] else ['%' as int, 'x' as int];
            Render(fmt, [Number(v)], attrs) == Some(Done(Numeral(16, n), [], [])) && Parsed(16, Numeral(16, n)) == n
  {
    hide Directive, Render, ItemText, Numeral, Signed, Parsed, Repeat;
    var n := if long then v else v % 0x1_0000_0000;
    var flags: Text := if long then ['l' as int] else [];
    Unflagged('x' as int, long, v, attrs);
    Formatted('x' as int, flags, NEW_SPEC.(long := long), v, attrs, n, AsInt64(n));
    NumeralLength(16, n);
    PaddedText(Numeral(16, n), 0, ' ' as int, true);
    NoneRepeated(' ' as int);
    assert [] + Numeral(16, n) == Numeral(16, n);
    assert ['%' as int] + (flags + ['x' as int])
        == if long then ['%' as int, 'l' as int, 'x' as int] else ['%' as int, 'x' as int];
    ParsesBack(16, n, 0);
  }

  lemma ParsesBack(b: Base, n: Word64, zeros: nat)
    ensures Parsed(b, Repeat('0' as int, zeros) + Numeral(b, n)) == n && Parsed(b, Numeral(b, n)) == n
  {
    hide Parsed, Numeral, Repeat;
    ParseNumeral(b, n, 0, zeros, []);
    ParseNumeral(b, n, 0, 0, []);
    NoneRepeated(' ' as int);
    NoneRepeated('0' as int);
    var t := Repeat('0' as int, zeros) + Numeral(b, n);
    assert [] + (t + []) == t && [] + ([] + Numeral(b, n) + []) == Numeral(b, n);
  }

  /** `%X` and `%lX`: the same, brought to 8 or 16 digits with zeros. */
  lemma FixedHexMeans(long: bool, v: Word64, attrs: Attrs)
    ensures var n := if long then v else v % 0x1_0000_0000;
            var digits := if long then 16 else 8;
            var fmt := if long then ['%' as int, 'l' as int, 'X' as int] else ['%' as int, 'X' as int];
            && |Numeral(16, n)| <= digits
            && var text := Repeat('0' as int, digits - |Numeral(16, n)|) + Numeral(16, n);
               Render(fmt, [Number(v)], attrs) == Some(Done(text, [], [])) && Parsed(16, text) == n
  {
    hide Directive, Render, ItemText, Numeral, Signed, Parsed, Repeat;
    var n := if long then v else v % 0x1_0000_0000;
    var digits := if long then 16 else 8;
    var flags: Text := if long then ['l' as int] else [];
    Unflagged('X' as int, long, v, attrs);
    Formatted('X' as int, flags, NEW_SPEC.(long := long), v, attrs, n, AsInt64(n));
    HexDigitsFit(n, long);
    PaddedText(Numeral(16, n), digits, '0' as int, true);
    assert ['%' as int] + (flags + ['X' as int])
        == if long then ['%' as int, 'l' as int, 'X' as int] else ['%' as int, 'X' as int];
    ParsesBack(16, n, digits - |Numeral(16, n)|);
  }

  lemma HexDigitsFit(n: Word64, long: bool)
    requires long || n < 0x1_0000_0000
    ensures |Numeral(16, n)| <= if long then 16 else 8
  {
    hide Digits;
    PowHex();
    assert Pow(16, 4) == 0x1_0000;
    assert Pow(16, 8) == 0x1_0000_0000;
    DigitsBound(16, n, if long then 16 else 8);
  }

  /** `%d` and `%ld`, and `%lu`: the text of the signed number with the low bits of the argument,
      32 or 64 of them. `%u` takes the low 32 bits without a sign. */
  lemma DecimalMeans(c: Unit, long: bool, v: Word64, attrs: Attrs, s: int)
    requires c == 'd' as int || c == 'u' as int
    requires if long then s % 0x1_0000_0000_0000_0000 == v && -0x8000_0000_0000_0000 <= s < 0x8000_0000_0000_0000
             else s % 0x1_0000_0000 == v % 0x1_0000_0000
                  && if c == 'd' as int then -0x8000_0000 <= s < 0x8000_0000 else 0 <= s < 0x1_0000_0000
    ensures var fmt := if long then ['%' as int, 'l' as int, c] else ['%' as int, c];
            Render(fmt, [Number(v)], attrs) == Some(Done(Signed(false, s), [], []))
  {
    hide Directive, Render, ItemText, Numeral, Signed;
    var n := if long then v else v % 0x1_0000_0000;
    var flags: Text := if long then ['l' as int] else [];
    Unflagged(c, long, v, attrs);
    Formatted(c, flags, NEW_SPEC.(long := long), v, attrs, n, s);
    PlainField(s);
    assert ['%' as int] + (flags + [c]) == if long then ['%' as int, 'l' as int, c] else ['%' as int, c];
  }

  /** A field without flags is its text. */
  lemma PlainField(s: int)
    requires -0x8000_0000_0000_0000 <= s < 0x8000_0000_0000_0000
    ensures ItemText(Item(Signed(false, s), 0, 0xFFFF_FFFF_FFFF_FFFF, ' ' as int, true)) == Signed(false, s)
  {
    hide ItemText, Numeral, Signed, Repeat;
    var m := if s < 0 then -s else s;
    SignedMeans(false, s);
    SignedMeans(false, m);
    NumeralLength(10, m);
    PaddedText(Signed(false, s), 0, ' ' as int, true);
    NoneRepeated(' ' as int);
    assert [] + Signed(false, s) == Signed(false, s);
  }

  /** Parsing gives a signed number back behind its sign. */
  lemma SignedParses(s: int)
    requires -0x8000_0000_0000_0000 <= s < 0x8000_0000_0000_0000
    ensures s >= 0 ==> Parsed(10, Signed(false, s)) == s
    ensures s < 0 ==> Signed(false, s)[..1] == ['-' as int] && Parsed(10, Signed(false, s)[1..]) == -s
  {
    hide Numeral, Signed, Parsed;
    var m := if s < 0 then -s else s;
    SignedMeans(false, s);
    SignedMeans(false, m);
    ParsesBack(10, m, 0);
  }

  /** A comma groups the digits: taking the commas out of `%,lu` gives what is printed without. */
  lemma CommaMeans(v: Word64, attrs: Attrs)
    requires v < 0x8000_0000_0000_0000
    ensures var text := Signed(true, v);
            && Render(['%' as int, ',' as int, 'l' as int, 'u' as int], [Number(v)], attrs) == Some(Done(text, [], []))
            && Plain(text) == Numeral(10, v) && (v > 0 ==> text == Grouped(true, Digits(10, v)))
  {
    hide Directive, Render, ItemText, Numeral, Signed, Repeat, Digits, Grouped, Plain;
    var flags: Text := [',' as int, 'l' as int];
    var c: Unit := 'u' as int;
    CommaFlags(flags, c, v, attrs);
    Formatted(c, flags, NEW_SPEC.(comma := true).(long := true), v, attrs, v, v);
    SignedMeans(true, v);
    GroupedText(v);
    PaddedText(Signed(true, v), 0, ' ' as int, true);
    NoneRepeated(' ' as int);
    assert [] + Signed(true, v) == Signed(true, v);
    assert ['%' as int] + (flags + [c]) == ['%' as int, ',' as int, 'l' as int, 'u' as int];
  }

  lemma CommaFlags(flags: Text, c: Unit, v: Word64, attrs: Attrs)
    requires flags == [',' as int, 'l' as int]
    ensures Directive(flags + [c], NEW_SPEC, [Number(v)], attrs)
            == Directive([c], NEW_SPEC.(comma := true).(long := true), [Number(v)], attrs)
  {
    hide Directive;
    FlagsMean(['l' as int] + [c], NEW_SPEC, [Number(v)], attrs, 0);
    FlagsMean([c], NEW_SPEC.(comma := true), [Number(v)], attrs, 0);
    assert flags + [c] == [',' as int] + (['l' as int] + [c]);
  }

  lemma GroupedText(v: Word64)
    ensures |Signed(true, v)| < 30 && (v > 0 ==> Signed(true, v) == Grouped(true, Digits(10, v)))
  {
    hide Digits, Grouped;
    PowDec();
    DigitsBound(10, v, 20);
    GroupedLength(true, Digits(10, v));
    if v > 0 {
      assert [] + Grouped(true, Digits(10, v)) == Grouped(true, Digits(10, v));
    }
  }

  /** A width, with blanks or zeros: `%0Wx` and `%Wx` for a width written W. */
  lemma PaddingMeans(zeros: bool, w: nat, v: Word64, attrs: Attrs)
    requires 0 < w < 0x1_0000_0000_0000_0000
    ensures var t := Numeral(16, v % 0x1_0000_0000);
            var pad: Unit := if zeros then '0' as int else ' ' as int;
            Render(['%' as int] + (((if zeros then ['0' as int] else []) + Digits(10, w)) + ['x' as int]),
                   [Number(v)], attrs)
            == Some(Done(Repeat(pad, if |t| < w then w - |t| else 0) + t, [], []))
  {
    hide Directive, Render, ItemText, Numeral, Digits, Signed, Repeat;
    var c: Unit := 'x' as int;
    var pad: Unit := if zeros then '0' as int else ' ' as int;
    var n := v % 0x1_0000_0000;
    var flags := (if zeros then ['0' as int] else []) + Digits(10, w);
    FlagsMean(Digits(10, w) + [c], NEW_SPEC, [Number(v)], attrs, 0);
    WidthMeans(w, [c], NEW_SPEC.(pad := pad), [Number(v)], attrs);
    assert flags + [c] == (if zeros then ['0' as int] else []) + (Digits(10, w) + [c]);
    assert [] + (Digits(10, w) + [c]) == Digits(10, w) + [c];
    Formatted(c, flags, NEW_SPEC.(pad := pad).(width := w), v, attrs, n, AsInt64(n));
    NumeralLength(16, n);
    PaddedText(Numeral(16, n), w, pad, true);
  }

  /** A field width: `%.Wx` and `%-.Wx` give a field of W characters, the text cut or with blanks
      in front or behind. */
  lemma FieldMeans(left: bool, w: nat, v: Word64, attrs: Attrs)
    requires 0 < w < 0xFFFF_FFFF_FFFF_FFFF
    ensures var t := Numeral(16, v % 0x1_0000_0000);
            var text := if w <= |t| then t[..w]
                        else if left then t + Repeat(' ' as int, w - |t|) else Repeat(' ' as int, w - |t|) + t;
            var flags := (if left then ['-' as int, '.' as int] else ['.' as int]) + Digits(10, w);
            Render(['%' as int] + (flags + ['x' as int]), [Number(v)], attrs)
            == Some(Done(text, [], []))
  {
    hide Directive, Render, ItemText, Numeral, Digits, Signed, Repeat;
    var c: Unit := 'x' as int;
    var n := v % 0x1_0000_0000;
    var point: Text := ['.' as int] + (Digits(10, w) + [c]);
    var flags := (if left then ['-' as int, '.' as int] else ['.' as int]) + Digits(10, w);
    var spec := NEW_SPEC.(padBefore := !left);
    FlagsMean(point, NEW_SPEC, [Number(v)], attrs, 0);
    FlagsMean(Digits(10, w) + [c], spec, [Number(v)], attrs, 0);
    WidthMeans(w, [c], spec.(toField := true), [Number(v)], attrs);
    assert flags + [c] == if left then ['-' as int] + point else point;
    Formatted(c, flags, spec.(toField := true).(fieldWidth := w), v, attrs, n, AsInt64(n));
    FieldedText(Numeral(16, n), w, ' ' as int, !left);
  }
}
