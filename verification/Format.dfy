/** What a format string and its arguments ask for (gnu-efi/lib/print.c). */
module Format {
  import opened Common
  import opened CText
  import opened NumberText

  const UINTN_MAX: nat := W64 - 1

  // ----- Fields -----

  /** The field width that stands for none given. */
  const NO_WIDTH: nat := UINTN_MAX

  datatype Item = Item(text: Text, width: nat, fieldWidth: nat, pad: Unit, padBefore: bool)
  {
    function Length(): nat { if |text| < fieldWidth then |text| else fieldWidth }

    function Padding(): nat { if Length() > width then 0 else width - Length() }

    function Spaces(): nat {
      if fieldWidth == NO_WIDTH || fieldWidth < Length() + Padding() then 0 else fieldWidth - Length() - Padding()
    }

    function Before(): nat { if padBefore then Spaces() else 0 }

    function After(): nat { if padBefore then 0 else Spaces() }

    /** The length and the paddings, from the two widths. */
    method Layout() returns (len: nat, padding: nat, before: nat, after: nat)
      ensures len == Length() && padding == Padding() && before == Before() && after == After()
    {
      len := Measure();
      var field := if fieldWidth == NO_WIDTH then len else fieldWidth;
      var wide := if len > width then len else width;
      var spaces := if field > wide then field - wide else 0;
      padding := wide - len;
      before := if padBefore then spaces else 0;
      after := if padBefore then 0 else spaces;
    }

    /** The characters before the terminator, no more than the field width. */
    method Measure() returns (len: nat)
      ensures len == Length()
    {
      len := 0;
      while len < fieldWidth
        invariant len <= |text| && len <= fieldWidth
      {
        if At(text, len) == 0 {
          break;
        }
        len := len + 1;
      }
    }
  }

  /** A field: the text, cut to the field width, padded to the width with the pad character
      before it, and then to the field width with spaces on one side. */
  function ItemText(item: Item): Text {
    Repeat(SPACE, item.Before()) + Repeat(item.pad, item.Padding()) + item.text[..item.Length()]
      + Repeat(SPACE, item.After())
  }

  // ----- Directives -----

  /** One argument. What a GUID, a status, a time, a device path or a floating-point number is
      printed as is given as its text. */
  datatype Arg = Number(v: Word64) | String(s: Option<Text>) | Converted(t: Text)

  /** The attributes of the output; a string has none, and they are then all zero. */
  datatype Attrs = Attrs(norm: nat, highlight: nat, error: nat)

  /** What the flags read so far say. */
  datatype Spec = Spec(width: nat, fieldWidth: nat, toField: bool, pad: Unit, padBefore: bool, comma: bool, long: bool)
  {
    function WithWidth(w: nat): Spec {
      if toField then this.(fieldWidth := w) else this.(width := w)
    }

    function Field(text: Text): Item {
      Item(text, width, fieldWidth, pad, padBefore)
    }
  }

  const NEW_SPEC: Spec := Spec(0, NO_WIDTH, false, SPACE, true, false, false)

  const PERCENT: Unit := '%' as int
  const ONE: Unit := '1' as int

  /** What a UINT32 or UINT64 argument, and an INT32 or INT64 argument, is read as. */
  function AsUnsigned(long: bool, v: Word64): Word64 {
    if long then v else v % 0x1_0000_0000
  }

  function AsSigned(long: bool, v: Word64): int {
    if long then AsInt64(v)
    else if v % 0x1_0000_0000 < 0x8000_0000 then v % 0x1_0000_0000 else v % 0x1_0000_0000 - 0x1_0000_0000
  }

  function StringText(s: Option<Text>): Text {
    match s
    case Some(t) => t
    case None => ['(' as int, 'n' as int, 'u' as int, 'l' as int, 'l' as int, ')' as int]
  }

  /** What one character of a directive asks for: to go on, to change the attribute and go on, to
      change it and end the directive, or to print a field and end it. */
  datatype Action =
    | More(spec: Spec, args: seq<Arg>)
    | SetAttr(attr: nat)
    | EndAttr(attr: nat)
    | Emit(item: Item, args: seq<Arg>)
    | Bad

  /** A conversion that reads a number. */
  function NumberAction(c: Unit, spec: Spec, v: Word64, args: seq<Arg>): Action {
    if c == '*' as int then More(spec.WithWidth(v), args)
    else if c == 'c' as int then Emit(spec.Field(if v % 0x1_0000 == 0 then [] else [v % 0x1_0000]), args)
    else if c == 'X' as int then
      Emit(spec.(width := if spec.long then 16 else 8, pad := ZERO).Field(Numeral(16, AsUnsigned(spec.long, v))), args)
    else if c == 'x' as int then Emit(spec.Field(Numeral(16, AsUnsigned(spec.long, v))), args)
    else if c == 'u' as int then Emit(spec.Field(Printed(10, spec.comma, AsUnsigned(spec.long, v))), args)
    else Emit(spec.Field(Signed(spec.comma, AsSigned(spec.long, v))), args)
  }

  predicate TakesNumber(c: Unit) {
    c == '*' as int || c == 'c' as int || c == 'X' as int || c == 'x' as int || c == 'u' as int || c == 'd' as int
  }

  predicate TakesString(c: Unit) {
    c == 'a' as int || c == 's' as int
  }

  predicate TakesConverted(c: Unit) {
    c == 'g' as int || c == 'D' as int || c == 'f' as int || c == 't' as int || c == 'r' as int
  }

  /** What fits the scratch buffer of a directive. */
  const PRINT_ITEM_BUFFER_LEN: nat := 100

  function Cut(t: Text): Text {
    if |t| < PRINT_ITEM_BUFFER_LEN then t else t[..PRINT_ITEM_BUFFER_LEN - 1]
  }

  function ArgAction(c: Unit, spec: Spec, args: seq<Arg>): Action {
    if args == [] then Bad
    else
      match args[0]
      case Number(v) => if TakesNumber(c) then NumberAction(c, spec, v, args[1..]) else Bad
      case String(s) => if TakesString(c) then Emit(spec.Field(StringText(s)), args[1..]) else Bad
      case Converted(t) =>
        if TakesConverted(c) then Emit(spec.Field(if c == 'D' as int then Cut(t) else t), args[1..]) else Bad
  }

  /** One character of a directive that does not begin a width. */
  function Act(c: Unit, spec: Spec, args: seq<Arg>, attrs: Attrs): Action {
    if TakesNumber(c) || TakesString(c) || TakesConverted(c) then ArgAction(c, spec, args)
    else if c == PERCENT then Emit(spec.Field([PERCENT]), args)
    else if c == ZERO then More(spec.(pad := ZERO), args)
    else if c == DASH then More(spec.(padBefore := false), args)
    else if c == COMMA then More(spec.(comma := true), args)
    else if c == '.' as int then More(spec.(toField := true), args)
    else if c == 'l' as int then More(spec.(long := true), args)
    else if c == 'n' as int then SetAttr(attrs.norm)
    else if c == 'h' as int then SetAttr(attrs.highlight)
    else if c == 'e' as int then SetAttr(attrs.error)
    else if c == 'N' as int then Named(attrs.norm, spec, args)
    else if c == 'H' as int then Named(attrs.highlight, spec, args)
    else if c == 'E' as int then Named(attrs.error, spec, args)
    else Emit(spec.Field([QUESTION]), args)
  }

  /** An attribute that is zero does not end the directive. */
  function Named(attr: nat, spec: Spec, args: seq<Arg>): Action {
    if attr != 0 then EndAttr(attr) else More(spec, args)
  }

  /** What a directive prints, with the format and the arguments left after it. */
  datatype Done = Done(text: Text, fmt: Text, args: seq<Arg>)

  function AddText(t: Text, d: Option<Done>): Option<Done> {
    if d.Some? then Some(d.value.(text := t + d.value.text)) else None
  }

  /** The directive whose flags so far are `spec`; none if the format ends inside it or an argument
      is missing or of another kind. */
  function Directive(fmt: Text, spec: Spec, args: seq<Arg>, attrs: Attrs): Option<Done>
    decreases |fmt|
  {
    if fmt == [] then None
    else if ONE <= fmt[0] <= NINE then
      var digits := NumberPrefix(10, fmt);
      DigitsAreThere(fmt);
      Directive(fmt[|digits|..], spec.WithWidth(Value(10, digits) % W64), args, attrs)
    else
      match Act(fmt[0], spec, args, attrs)
      case More(spec', rest) => Directive(fmt[1..], spec', rest, attrs)
      case SetAttr(_) => Directive(fmt[1..], spec, args, attrs)
      case EndAttr(_) => Some(Done([], fmt[1..], args))
      case Emit(item, rest) => Some(Done(ItemText(item), fmt[1..], rest))
      case Bad => None
  }

  lemma {:induction false} DigitsAreThere(fmt: Text)
    ensures NumberPrefix(10, fmt) <= fmt
    ensures fmt != [] && ONE <= fmt[0] <= NINE ==> NumberPrefix(10, fmt) != []
  {
    if fmt == [] {
    } else {
      DigitsAreThere(fmt[1..]);
    }
  }

  lemma {:induction false} DirectiveShortens(fmt: Text, spec: Spec, args: seq<Arg>, attrs: Attrs)
    requires Directive(fmt, spec, args, attrs).Some?
    ensures var d := Directive(fmt, spec, args, attrs).value;
            |d.fmt| < |fmt| && d.fmt == fmt[|fmt| - |d.fmt|..]
    decreases |fmt|
  {
    hide Act, ItemText;
    if ONE <= fmt[0] <= NINE {
      var digits := NumberPrefix(10, fmt);
      DigitsAreThere(fmt);
      DirectiveShortens(fmt[|digits|..], spec.WithWidth(Value(10, digits) % W64), args, attrs);
    } else {
      match Act(fmt[0], spec, args, attrs)
      case More(spec', rest) => DirectiveShortens(fmt[1..], spec', rest, attrs);
      case SetAttr(_) => DirectiveShortens(fmt[1..], spec, args, attrs);
      case EndAttr(_) =>
      case Emit(_, _) =>
    }
  }

  // ----- The switch over one character, with its scratch buffer -----

  /** The text up to the terminator. */
  method ReadText(buffer: array<Char16>, ghost t: Text) returns (text: Text)
    requires HoldsText(buffer[..], t)
    ensures text == t
  {
    assert forall i :: 0 <= i < |t| ==> buffer[i] == buffer[..|t|][i];
    text := [];
    while buffer[|text|] != 0
      invariant |text| <= |t| && text == t[..|text|]
      decreases |t| - |text|
    {
      text := text + [buffer[|text|]];
    }
  }

  /** One character, terminated, in the scratch buffer; none if it is NUL. */
  method PutOne(scratch: array<Char16>, c: Char16) returns (text: Text)
    requires scratch.Length == PRINT_ITEM_BUFFER_LEN
    modifies scratch
    ensures text == if c == 0 then [] else [c]
  {
    scratch[0], scratch[1] := c, 0;
    ghost var t: Text := if c == 0 then [] else [c];
    assert scratch[..|t|] == t;
    text := ReadText(scratch, t);
  }

  method PutHex(scratch: array<Char16>, v: Word64) returns (text: Text)
    requires scratch.Length == PRINT_ITEM_BUFFER_LEN
    modifies scratch
    ensures text == Numeral(16, v)
  {
    ValueToHex(scratch, v);
    text := ReadText(scratch, Numeral(16, v));
  }

  /** The value comes as an INT64, whatever it was. */
  method PutDecimal(scratch: array<Char16>, comma: bool, v: int) returns (text: Text)
    requires scratch.Length == PRINT_ITEM_BUFFER_LEN && MIN_I64 <= v < -MIN_I64
    modifies scratch
    ensures text == Signed(comma, v)
  {
    ValueToString(scratch, comma, v);
    text := ReadText(scratch, Signed(comma, v));
  }

  method ConvertNumber(c: Unit, spec: Spec, v: Word64, args: seq<Arg>, scratch: array<Char16>) returns (action: Action)
    requires TakesNumber(c) && scratch.Length == PRINT_ITEM_BUFFER_LEN
    modifies scratch
    ensures action == NumberAction(c, spec, v, args)
  {
    hide Numeral, Signed;
    var item := spec;
    var text: Text;
    if c == '*' as int {
      return More(spec.WithWidth(v), args);
    } else if c == 'c' as int {
      text := PutOne(scratch, v % 0x1_0000);
    } else if c == 'X' as int || c == 'x' as int {
      if c == 'X' as int {
        item := item.(width := if spec.long then 16 else 8, pad := ZERO);
      }
      text := PutHex(scratch, AsUnsigned(spec.long, v));
    } else if c == 'u' as int {
      text := PutDecimal(scratch, spec.comma, AsInt64(AsUnsigned(spec.long, v)));
    } else {
      text := PutDecimal(scratch, spec.comma, AsSigned(spec.long, v));
    }
    action := Emit(item.Field(text), args);
  }

  method Convert(c: Unit, spec: Spec, args: seq<Arg>, attrs: Attrs, scratch: array<Char16>) returns (action: Action)
    requires scratch.Length == PRINT_ITEM_BUFFER_LEN
    modifies scratch
    ensures action == Act(c, spec, args, attrs)
  {
    hide NumberAction;
    if TakesNumber(c) || TakesString(c) || TakesConverted(c) {
      if args != [] && args[0].Number? && TakesNumber(c) {
        action := ConvertNumber(c, spec, args[0].v, args[1..], scratch);
      } else {
        action := ArgAction(c, spec, args);
      }
      return;
    }
    if c == PERCENT {
      var text := PutOne(scratch, PERCENT);
      return Emit(spec.Field(text), args);
    } else if c == ZERO {
      return More(spec.(pad := ZERO), args);
    } else if c == DASH {
      return More(spec.(padBefore := false), args);
    } else if c == COMMA {
      return More(spec.(comma := true), args);
    } else if c == '.' as int {
      return More(spec.(toField := true), args);
    } else if c == 'l' as int {
      return More(spec.(long := true), args);
    } else if c == 'n' as int {
      return SetAttr(attrs.norm);
    } else if c == 'h' as int {
      return SetAttr(attrs.highlight);
    } else if c == 'e' as int {
      return SetAttr(attrs.error);
    } else if c == 'N' as int {
      return Named(attrs.norm, spec, args);
    } else if c == 'H' as int {
      return Named(attrs.highlight, spec, args);
    } else if c == 'E' as int {
      return Named(attrs.error, spec, args);
    }
    var text := PutOne(scratch, QUESTION);
    action := Emit(spec.Field(text), args);
  }

  // ----- Formats -----

  /** What a format prints, and the arguments it leaves. */
  function Render(fmt: Text, args: seq<Arg>, attrs: Attrs): Option<Done>
    decreases |fmt|
  {
    if fmt == [] then Some(Done([], [], args))
    else if fmt[0] != PERCENT then AddText([fmt[0]], Render(fmt[1..], args, attrs))
    else
      match Directive(fmt[1..], NEW_SPEC, args, attrs)
      case None => None
      case Some(d) =>
        DirectiveShortens(fmt[1..], NEW_SPEC, args, attrs);
        AddText(d.text, Render(d.fmt, d.args, attrs))
  }

  /** What follows a complete directive does not change it. */
  lemma {:induction false} DirectiveConcat(fmt: Text, tail: Text, spec: Spec, args: seq<Arg>, attrs: Attrs)
    requires Directive(fmt, spec, args, attrs).Some?
    ensures var d := Directive(fmt, spec, args, attrs).value;
            Directive(fmt + tail, spec, args, attrs) == Some(d.(fmt := d.fmt + tail))
    decreases |fmt|
  {
    hide Act, ItemText, Value;
    var all := fmt + tail;
    assert all[0] == fmt[0] && all[1..] == fmt[1..] + tail;
    if ONE <= fmt[0] <= NINE {
      var digits := NumberPrefix(10, fmt);
      DigitsAreThere(fmt);
      var rest := fmt[|digits|..];
      DigitsConcat(fmt, tail);
      assert all[|digits|..] == rest + tail;
      DirectiveConcat(rest, tail, spec.WithWidth(Value(10, digits) % W64), args, attrs);
    } else {
      match Act(fmt[0], spec, args, attrs)
      case More(spec', rest) => DirectiveConcat(fmt[1..], tail, spec', rest, attrs);
      case SetAttr(_) => DirectiveConcat(fmt[1..], tail, spec, args, attrs);
      case EndAttr(_) =>
      case Emit(_, _) =>
    }
  }

  lemma {:induction false} DigitsConcat(fmt: Text, tail: Text)
    requires |NumberPrefix(10, fmt)| < |fmt|
    ensures NumberPrefix(10, fmt + tail) == NumberPrefix(10, fmt)
  {
    assert (fmt + tail)[0] == fmt[0] && (fmt + tail)[1..] == fmt[1..] + tail;
    if !Continues(10, fmt[0]) {
    } else {
      DigitsConcat(fmt[1..], tail);
    }
  }

  /** Formats compose: what the first leaves of the arguments goes to the second. */
  lemma {:induction false} RenderConcat(f: Text, g: Text, args: seq<Arg>, attrs: Attrs)
    requires Render(f, args, attrs).Some?
    ensures var d := Render(f, args, attrs).value;
            Render(f + g, args, attrs) == AddText(d.text, Render(g, d.args, attrs))
    decreases |f|
  {
    hide Directive;
    if f == [] {
      assert f + g == g;
      var r := Render(g, args, attrs);
      assert r.Some? ==> [] + r.value.text == r.value.text;
    } else {
      var all := f + g;
      assert all[0] == f[0] && all[1..] == f[1..] + g;
      if f[0] != PERCENT {
        RenderConcat(f[1..], g, args, attrs);
        AddTwice([f[0]], Render(f[1..], args, attrs).value, g, attrs);
      } else {
        var d := Directive(f[1..], NEW_SPEC, args, attrs).value;
        DirectiveShortens(f[1..], NEW_SPEC, args, attrs);
        DirectiveConcat(f[1..], g, NEW_SPEC, args, attrs);
        RenderConcat(d.fmt, g, d.args, attrs);
        AddTwice(d.text, Render(d.fmt, d.args, attrs).value, g, attrs);
      }
    }
  }

  lemma AddTwice(t: Text, d: Done, g: Text, attrs: Attrs)
    ensures AddText(t, AddText(d.text, Render(g, d.args, attrs))) == AddText(t + d.text, Render(g, d.args, attrs))
  {
    var r := Render(g, d.args, attrs);
    assert r.Some? ==> t + (d.text + r.value.text) == (t + d.text) + r.value.text;
  }

  /** A text without directives prints itself. */
  lemma {:induction false} RenderPlain(fmt: Text, args: seq<Arg>, attrs: Attrs)
    requires forall i :: 0 <= i < |fmt| ==> fmt[i] != PERCENT
    ensures Render(fmt, args, attrs) == Some(Done(fmt, [], args))
  {
    if fmt == [] {
    } else {
      RenderPlain(fmt[1..], args, attrs);
      assert fmt == [fmt[0]] + fmt[1..];
    }
  }
}
