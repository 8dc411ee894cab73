/** Buffered printing (gnu-efi/lib/print.c): a 200-character staging buffer in front of a
    truncating or a growing string. */
module Print {
  import opened Common
  import opened CText
  import opened NumberText
  import opened Format

  const PRINT_STRING_LEN: nat := 200

  // ----- POOL_PRINT and its two appending workers -----

  class PoolPrint {
    var str: array?<Char16>
    var len: nat
    var maxlen: nat

    constructor (s: array?<Char16>, n: nat, max: nat)
      ensures str == s && len == n && maxlen == max
    {
      str, len, maxlen := s, n, max;
    }

    ghost predicate Valid()
      reads this
    {
      if str == null then len == 0 && maxlen == 0 else len <= maxlen && len <= str.Length
    }

    /** The characters held, terminator not included. */
    ghost function Contents(): seq<Char16>
      requires Valid()
      reads this, str
    {
      if str == null then [] else str[..len]
    }

    ghost predicate Closed()
      requires Valid()
      reads this, str
    {
      str != null && len < str.Length && str[len] == 0
    }

    /** `n` more characters and a terminator stay inside the string. */
    ghost predicate Room(n: nat)
      reads this
    {
      str == null || maxlen < str.Length || len + n < str.Length
    }

    /** `_SPrint`: what does not fit below the maximum is cut off. */
    method SPrint(buffer: array<Char16>, ghost text: Text)
      requires Valid() && Room(|text|) && buffer != str && HoldsText(buffer[..], text)
      modifies this`len, str
      ensures Valid() && len == if old(len) + |text| > maxlen then maxlen else old(len) + |text|
      ensures str != null ==> Contents() == old(Contents()) + text[..len - old(len)]
      ensures maxlen > 0 ==> Closed()
    {
      var length := StrLen(buffer, text);
      if len + length > maxlen {
        length := maxlen - len;
      }
      if str != null {
        CopyMem(str, len, buffer, 0, length);
      }
      len := len + length;
      if len < maxlen {
        str[len] := 0;
      } else if maxlen != 0 {
        str[maxlen] := 0;
      }
    }

    /** `_PoolPrint`: the string is first moved to a larger block when the text does not fit;
        when the pool refuses that, the string and everything in it is gone. `granted` is what the
        pool would say; the result says whether it was asked. */
    method PoolPrint(buffer: array<Char16>, granted: bool, ghost text: Text) returns (asked: bool)
      requires Valid() && buffer != str && (str != null ==> maxlen <= str.Length)
      requires HoldsText(buffer[..], text)
      modifies this, str
      ensures Valid() && (str != null ==> maxlen <= str.Length && Closed())
      ensures str == old(str) || str == null || fresh(str)
      ensures asked <==> old(len) + |text| + 1 > old(maxlen)
      ensures str == null <==> asked && !granted
      ensures Contents() == if asked && !granted then [] else old(Contents()) + text
    {
      var n := StrLen(buffer, text);
      var newlen := len + n + 1;
      asked := newlen > maxlen;
      if asked {
        Grow(newlen + PRINT_STRING_LEN, granted);
      }
      SPrint(buffer, text);
    }

    /** `ReallocatePool`, for the string. */
    method Grow(newlen: nat, granted: bool)
      requires Valid() && len < newlen
      modifies this
      ensures Valid() && len <= old(len)
      ensures granted ==> str != null && fresh(str) && Contents() == old(Contents()) && maxlen == str.Length == newlen
      ensures !granted ==> str == null
    {
      maxlen := newlen;
      if granted {
        var block := new Char16[newlen](_ => 0);
        if str != null {
          CopyMem(block, 0, str, 0, len);
        }
        str := block;
      } else {
        str := null;
        len := 0;
        maxlen := 0;
      }
    }
  }

  method StrLen(s: array<Char16>, ghost t: Text) returns (n: nat)
    requires HoldsText(s[..], t)
    ensures n == |t|
  {
    assert forall i :: 0 <= i < |t| ==> s[i] == t[i];
    n := 0;
    while s[n] != 0
      invariant n <= |t|
      decreases |t| - n
    {
      n := n + 1;
    }
  }

  // ----- PRINT_STATE -----

  /** What a character becomes on the way out: a carriage return goes before a line feed. */
  function Expand(c: Unit): Text {
    if c == LF then [CR, LF] else [c]
  }

  function ExpandAll(t: Text): Text {
    if t == [] then [] else Expand(t[0]) + ExpandAll(t[1..])
  }

  lemma {:induction false} ExpandConcat(a: Text, b: Text)
    ensures ExpandAll(a + b) == ExpandAll(a) + ExpandAll(b)
  {
    if a == [] {
      assert a + b == b;
    } else {
      assert (a + b)[0] == a[0] && (a + b)[1..] == a[1..] + b;
      ExpandConcat(a[1..], b);
    }
  }

  /** Every line feed goes out as a carriage return and a line feed. */
  lemma ExpandMeans(a: Text, b: Text)
    ensures ExpandAll(a + [10] + b) == ExpandAll(a) + [13, 10] + ExpandAll(b)
  {
    ExpandConcat(a + [10], b);
    ExpandConcat(a, [10]);
    assert ExpandAll([10]) == [13, 10] + ExpandAll([]);
  }

  /** A text without line feeds goes out as it is. */
  lemma {:induction false} ExpandKeeps(a: Text)
    requires forall i :: 0 <= i < |a| ==> a[i] != 10
    ensures ExpandAll(a) == a
  {
    if a == [] {
    } else {
      ExpandKeeps(a[1..]);
      assert a == [a[0]] + a[1..];
    }
  }

  lemma ItemParts(item: Item)
    ensures ExpandAll(ItemText(item)) == ExpandAll(Repeat(SPACE, item.Before()))
              + ExpandAll(Repeat(item.pad, item.Padding()))
              + ExpandAll(item.text[..item.Length()]) + ExpandAll(Repeat(SPACE, item.After()))
  {
    hide ExpandAll, Repeat, Item.Before, Item.Padding, Item.After;
    var before, padding, text, after :=
      Repeat(SPACE, item.Before()), Repeat(item.pad, item.Padding()),
      item.text[..item.Length()], Repeat(SPACE, item.After());
    ExpandConcat(before, padding);
    ExpandConcat(before + padding, text);
    ExpandConcat(before + padding + text, after);
  }

  /** A string sink has no attributes. */
  const NO_ATTRS: Attrs := Attrs(0, 0, 0)

  /** What the pool's answers come to when `all` characters have been sent to a string that held
      `prior` of them. The first `dry` requests were made when there was nothing to lose. */
  ghost predicate Answered(grants: nat -> bool, prior: nat, all: nat, lost: nat, dry: nat, requests: nat,
                           isNull: bool)
  {
    && prior <= all && lost <= all && dry <= requests
    && (all == 0 ==> dry == requests) && (prior > 0 ==> dry == 0)
    && (lost == 0 <==> forall i :: dry <= i < requests ==> grants(i))
    && (requests > 0 ==> (isNull <==> !grants(requests - 1)))
  }

  lemma NextAnswer(grants: nat -> bool, prior: nat, all: nat, lost: nat, dry: nat, requests: nat, isNull: bool, n: nat)
    requires Answered(grants, prior, all, lost, dry, requests, isNull)
    ensures Answered(grants, prior, all + n, lost, dry, requests, isNull)
    ensures var lost' := if grants(requests) then lost else all + n;
            var dry' := if all + n == 0 then requests + 1 else dry;
            Answered(grants, prior, all + n, lost', dry', requests + 1, !grants(requests))
  {
  }

  lemma Answers(grants: nat -> bool, prior: nat, all: nat, lost: nat, dry: nat, requests: nat, isNull: bool)
    requires Answered(grants, prior, all, lost, dry, requests, isNull)
    ensures lost <= all && (requests > 0 ==> (isNull <==> !grants(requests - 1)))
  {
  }

  datatype Worker = Truncating | Growing

  class PrintState {
    const Buffer: array<Char16>
    const Output: Worker
    const Context: PoolPrint
    /** Whether the pool grants each request for a block, in order. */
    const grants: nat -> bool
    const attrs: Attrs
    var Pos: nat
    var Len: nat
    var Attr: nat
    var RestoreAttr: nat
    var requests: nat
    /** Everything put so far, how much of it a refused growth has lost, the number of requests
        made when there was nothing to lose, and what the string held at the start. */
    ghost var out: Text
    ghost var lost: nat
    ghost var dry: nat
    ghost const prior: seq<Char16>

    /** The attributes are those of a zeroed state. */
    constructor (output: Worker, spc: PoolPrint, answers: nat -> bool)
      requires spc.Valid()
      requires if output == Truncating then spc.str != null && spc.len == 0
               else spc.str != null ==> spc.maxlen <= spc.str.Length
      ensures Valid() && Pos == 0 && out == [] && requests == 0 && dry == 0
      ensures fresh(Buffer) && Output == output && Context == spc && grants == answers && prior == spc.Contents()
      ensures attrs == NO_ATTRS
    {
      Buffer := new Char16[PRINT_STRING_LEN](_ => 0);
      Output, Context, grants, attrs := output, spc, answers, NO_ATTRS;
      Pos, Len, requests, Attr, RestoreAttr := 0, 0, 0, 0, 0;
      out, lost, dry := [], 0, 0;
      prior := spc.Contents();
      new;
      assert prior + out[..|out| - Pos] == prior;
      InitiallyDelivered();
    }

    lemma InitiallyDelivered()
      requires lost == dry == requests == 0 && Context.Valid() && prior == Context.Contents()
      requires if Output == Truncating then Context.str != null && Context.len == 0
               else Context.str != null ==> Context.maxlen <= Context.str.Length
      ensures Delivered(prior)
    {
      assert prior[0..] == prior && (Output == Truncating ==> prior == []);
    }

    /** What the string holds when `all` has been sent to it. */
    ghost predicate Delivered(all: seq<Char16>)
      reads this`lost, this`dry, this`requests, Context, Context.str
    {
      && Context.Valid()
      && match Output
         case Truncating =>
           && lost == 0 && Context.str != null
           && Context.len == (if |all| > Context.maxlen then Context.maxlen else |all|)
           && Context.Contents() == all[..Context.len]
         case Growing =>
           && (Context.str != null ==> Context.maxlen <= Context.str.Length)
           && Answered(grants, |prior|, |all|, lost, dry, requests, Context.str == null)
           && Context.Contents() == all[lost..]
    }

    /** The staging buffer holds what has been put and not yet sent. */
    ghost predicate Staged()
      reads this`Pos, this`out, Buffer
    {
      && Buffer.Length == PRINT_STRING_LEN
      && Pos < PRINT_STRING_LEN && Pos <= |out|
      && Buffer[..Pos] == out[|out| - Pos..]
    }

    ghost predicate Valid()
      reads this`Pos, this`Len, this`out, this`lost, this`dry, this`requests, Buffer, Context, Context.str
    {
      Buffer != Context.str && Len == |out| && Staged() && Delivered(prior + out[..|out| - Pos])
    }

    /** A truncating string of unlimited size must be large enough for what is staged and
        `n` more characters. */
    ghost predicate Room(n: nat)
      reads this, Context
    {
      Output == Growing || Context.Room(Pos + n)
    }

    /** What a step leaves as it was: the truncating string's block and size. */
    twostate predicate SameTarget()
      reads this, Context
    {
      && (Output == Truncating ==> Context.str == old(Context.str) && Context.maxlen == old(Context.maxlen))
      && (Context.str == old(Context.str) || Context.str == null || fresh(Context.str))
    }

    method SendTruncating(ghost text: Text, ghost sent: seq<Char16>)
      requires Output == Truncating && Delivered(sent) && Buffer != Context.str
      requires HoldsText(Buffer[..], text) && Context.Room(|text|)
      modifies Context`len, Context.str
      ensures Delivered(sent + text) && Context.len <= old(Context.len) + |text|
      ensures Context.maxlen > 0 ==> Context.Closed()
    {
      Context.SPrint(Buffer, text);
    }

    method SendGrowing(ghost text: Text, ghost sent: seq<Char16>)
      requires Output == Growing && Delivered(sent) && Buffer != Context.str && prior <= sent
      requires HoldsText(Buffer[..], text)
      modifies this`requests, this`dry, this`lost, Context, Context.str
      ensures Delivered(sent + text)
      ensures Context.str == old(Context.str) || Context.str == null || fresh(Context.str)
      ensures Context.str != null ==> Context.Closed()
      ensures Context.str == null <==> requests > 0 && !grants(requests - 1)
    {
      hide Answered, Delivered, HoldsText, PoolPrint.Contents, PoolPrint.Closed;
      Held(sent);
      ghost var all, kept := sent + text, lost;
      Answers(grants, |prior|, |sent|, lost, dry, requests, Context.str == null);
      NextAnswer(grants, |prior|, |sent|, lost, dry, requests, Context.str == null, |text|);
      assert all[kept..] == sent[kept..] + text && all[|all|..] == [];
      var granted := grants(requests);
      var asked := Context.PoolPrint(Buffer, granted, text);
      if asked {
        requests := requests + 1;
        if all == [] { dry := requests; }
        if !granted { lost := |all|; }
      }
      Holds(all);
    }

    /** What has been delivered to a growing string. */
    lemma Held(all: seq<Char16>)
      requires Output == Growing && Delivered(all)
      ensures Context.Valid() && (Context.str != null ==> Context.maxlen <= Context.str.Length)
      ensures Answered(grants, |prior|, |all|, lost, dry, requests, Context.str == null)
      ensures lost <= |all| && Context.Contents() == all[lost..]
    {
    }

    lemma Holds(all: seq<Char16>)
      requires Output == Growing
      requires Context.Valid() && (Context.str != null ==> Context.maxlen <= Context.str.Length)
      requires Answered(grants, |prior|, |all|, lost, dry, requests, Context.str == null)
      requires lost <= |all| && Context.Contents() == all[lost..]
      ensures Delivered(all)
    {
    }

    method PFLUSH()
      requires Valid() && Room(0)
      modifies this`Pos, this`requests, this`dry, this`lost, Buffer, Context, Context.str
      ensures Valid() && Pos == 0 && SameTarget()
      ensures Output == Truncating ==> Context.len <= old(Context.len + Pos)
      ensures Context.str != null && (Output == Growing || Context.maxlen > 0) ==> Context.Closed()
      ensures Output == Growing ==> (Context.str == null <==> requests > 0 && !grants(requests - 1))
    {
      hide PoolPrint.Contents, PoolPrint.Closed, Delivered;
      ghost var text := out[|out| - Pos..];
      ghost var sent := prior + out[..|out| - Pos];
      Buffer[Pos] := 0;
      assert Buffer[..Pos] == text;
      Send(text, sent);
      SentSplit(prior, out, Pos);
      Pos := 0;
      assert out[..|out|] == out && Buffer[..0] == out[|out|..];
    }

    method Send(ghost text: Text, ghost sent: seq<Char16>)
      requires Delivered(sent) && Buffer != Context.str && HoldsText(Buffer[..], text) && prior <= sent
      requires Output == Growing || Context.Room(|text|)
      modifies this`requests, this`dry, this`lost, Context, Context.str
      ensures Delivered(sent + text) && SameTarget()
      ensures Output == Truncating ==> Context.len <= old(Context.len) + |text|
      ensures Context.str != null && (Output == Growing || Context.maxlen > 0) ==> Context.Closed()
      ensures Output == Growing ==> (Context.str == null <==> requests > 0 && !grants(requests - 1))
    {
      hide PoolPrint.Contents, PoolPrint.Closed, Delivered, PoolPrint.Room, HoldsText;
      match Output {
        case Truncating => SendTruncating(text, sent);
        case Growing => SendGrowing(text, sent);
      }
    }

    /** One character, after the carriage return that a line feed brings along. */
    method PPUTC(c: Unit)
      requires Valid() && Pos < PRINT_STRING_LEN - 1 && Room(|Expand(c)|)
      modifies this`Pos, this`Len, this`requests, this`dry, this`lost, this`out, Buffer, Context, Context.str
      ensures Valid() && Pos < PRINT_STRING_LEN - 1 && SameTarget()
      ensures out == old(out) + Expand(c)
      ensures Output == Truncating ==> Context.len + Pos <= old(Context.len + Pos) + |Expand(c)|
      decreases c == LF
    {
      hide PoolPrint.Contents;
      if c == LF {
        PPUTC(CR);
      }
      Stage(c);
      if Pos >= PRINT_STRING_LEN - 1 {
        PFLUSH();
      }
    }

    /** A loop that puts the characters of `t` one by one. */
    method PutAll(t: Text)
      requires Valid() && Pos < PRINT_STRING_LEN - 1 && Room(|ExpandAll(t)|)
      modifies this`Pos, this`Len, this`requests, this`dry, this`lost, this`out, Buffer, Context, Context.str
      ensures Valid() && Pos < PRINT_STRING_LEN - 1 && SameTarget()
      ensures out == old(out) + ExpandAll(t)
      ensures Output == Truncating ==> Context.len + Pos <= old(Context.len + Pos) + |ExpandAll(t)|
    {
      hide PoolPrint.Contents, Valid, Expand;
      for i := 0 to |t|
        invariant Valid() && Pos < PRINT_STRING_LEN - 1 && SameTarget()
        invariant out == old(out) + ExpandAll(t[..i])
        invariant Output == Truncating ==> Context.len + Pos <= old(Context.len + Pos) + |ExpandAll(t[..i])|
      {
        ExpandPrefix(t, i);
        PPUTC(t[i]);
      }
      assert t[..|t|] == t;
    }

    /** PITEM: one field with its padding. */
    method PITEM(item: Item)
      requires Valid() && Pos < PRINT_STRING_LEN - 1 && Room(|ExpandAll(ItemText(item))|)
      modifies this`Pos, this`Len, this`requests, this`dry, this`lost, this`out, Buffer, Context, Context.str
      ensures Valid() && Pos < PRINT_STRING_LEN - 1 && SameTarget()
      ensures out == old(out) + ExpandAll(ItemText(item))
      ensures Output == Truncating ==> Context.len + Pos <= old(Context.len + Pos) + |ExpandAll(ItemText(item))|
    {
      hide PoolPrint.Contents, Valid, Expand, ExpandAll, ItemText, Repeat;
      hide Item.Before, Item.Padding, Item.After;
      var len, padding, before, after := item.Layout();
      ItemParts(item);
      PutTwo(Repeat(SPACE, before), Repeat(item.pad, padding));
      PutTwo(item.text[..len], Repeat(SPACE, after));
    }

    method PutTwo(s: Text, t: Text)
      requires Valid() && Pos < PRINT_STRING_LEN - 1 && Room(|ExpandAll(s)| + |ExpandAll(t)|)
      modifies this`Pos, this`Len, this`requests, this`dry, this`lost, this`out, Buffer, Context, Context.str
      ensures Valid() && Pos < PRINT_STRING_LEN - 1 && SameTarget()
      ensures out == old(out) + ExpandAll(s) + ExpandAll(t)
      ensures Output == Truncating ==>
                Context.len + Pos <= old(Context.len + Pos) + |ExpandAll(s)| + |ExpandAll(t)|
    {
      hide PoolPrint.Contents, Valid, Expand, ExpandAll;
      PutAll(s);
      PutAll(t);
    }

    /** The attribute changes for what is staged after it, so that what is staged goes out. */
    method PSETATTR(attr: nat)
      requires Valid() && Room(0)
      modifies this`Pos, this`requests, this`dry, this`lost, this`Attr, this`RestoreAttr, Buffer, Context, Context.str
      ensures Valid() && Pos == 0 && SameTarget()
      ensures Output == Truncating ==> Context.len <= old(Context.len + Pos)
    {
      hide PoolPrint.Contents, PoolPrint.Closed, Valid;
      PFLUSH();
      RestoreAttr := Attr;
      Attr := attr;
    }

    /** The loop over the digits of a width that begins at `i`. */
    method ParseWidth(fmt: Text, i: nat) returns (w: nat, next: nat)
      requires i < |fmt| && ONE <= fmt[i] <= NINE
      ensures w == Value(10, NumberPrefix(10, fmt[i..])) % W64
      ensures next == i + |NumberPrefix(10, fmt[i..])| && i < next <= |fmt|
    {
      hide Value, NumberPrefix;
      ghost var p := NumberPrefix(10, fmt[i..]);
      w, next := 0, i;
      DigitsAreThere(fmt[i..]);
      while ZERO <= At(fmt, next) <= NINE
        invariant i <= next <= |fmt| && w < W64
        invariant Fold(10, w, NumberPrefix(10, fmt[next..])) == Fold(10, 0, p)
        invariant next + |NumberPrefix(10, fmt[next..])| == i + |p|
        decreases |fmt| - next
      {
        PrefixStep(fmt, next);
        FoldNext(10, w, fmt, next);
        w := (w * 10 + fmt[next] - ZERO) % W64;
        next := next + 1;
      }
      PrefixEnds(fmt, next);
      FoldEnds(10, w, fmt, next);
      FoldIsValue(10, p);
    }

    /** One round of the loop over a directive: a width, or one character. */
    method DirectiveStep(fmt: Text, i0: nat, spec0: Spec, args0: seq<Arg>, scratch: array<Char16>)
      returns (ended: bool, i: nat, spec: Spec, args: seq<Arg>)
      requires scratch.Length == PRINT_ITEM_BUFFER_LEN && scratch != Buffer && scratch != Context.str
      requires i0 <= |fmt| && Directive(fmt[i0..], spec0, args0, attrs).Some?
      requires Valid() && Pos < PRINT_STRING_LEN - 1
      requires Room(|ExpandAll(Directive(fmt[i0..], spec0, args0, attrs).value.text)|)
      modifies this`Pos, this`Len, this`requests, this`dry, this`lost, this`out, this`Attr, this`RestoreAttr
      modifies Buffer, Context, Context.str, scratch
      ensures Valid() && Pos < PRINT_STRING_LEN - 1 && SameTarget() && i0 < i <= |fmt| && scratch != Context.str
      ensures !ended ==>
                && Directive(fmt[i..], spec, args, attrs) == Directive(fmt[i0..], spec0, args0, attrs)
                && out == old(out)
                && (Output == Truncating ==> Context.len + Pos <= old(Context.len + Pos))
      ensures ended ==>
                var d := Directive(fmt[i0..], spec0, args0, attrs).value;
                && d.fmt == fmt[i..] && d.args == args && out == old(out) + ExpandAll(d.text)
                && (Output == Truncating ==> Context.len + Pos <= old(Context.len + Pos) + |ExpandAll(d.text)|)
    {
      hide PoolPrint.Contents, Valid, Expand, ExpandAll, ItemText, Act, Value, NumberPrefix, Directive;
      NotAtEnd(fmt, i0, spec0, args0, attrs);
      i, spec, args, ended := i0, spec0, args0, false;
      var c := fmt[i];
      if ONE <= c <= NINE {
        var width, next := ParseWidth(fmt, i);
        DirectiveWidth(fmt, i, spec, args, attrs);
        spec, i := spec.WithWidth(width), next;
        return;
      }
      DirectiveChar(fmt, i, spec, args, attrs);
      i := i + 1;
      var action := Convert(c, spec, args, attrs, scratch);
      match action {
        case More(spec', rest) => spec, args := spec', rest;
        case SetAttr(attr) => PSETATTR(attr);
        case EndAttr(attr) =>
          PSETATTR(attr);
          RestoreAttr := 0;
          NothingPrinted();
          ended := true;
        case Emit(item, rest) =>
          PITEM(item);
          args := rest;
          ended := true;
      }
    }

    /** One directive, from behind its percent sign. */
    method PrintDirective(fmt: Text, start: nat, args0: seq<Arg>) returns (i: nat, args: seq<Arg>)
      requires start <= |fmt| && Directive(fmt[start..], NEW_SPEC, args0, attrs).Some?
      requires Valid() && Pos < PRINT_STRING_LEN - 1
      requires Room(|ExpandAll(Directive(fmt[start..], NEW_SPEC, args0, attrs).value.text)|)
      modifies this`Pos, this`Len, this`requests, this`dry, this`lost, this`out, this`Attr, this`RestoreAttr
      modifies Buffer, Context, Context.str
      ensures Valid() && Pos < PRINT_STRING_LEN - 1 && SameTarget()
      ensures var d := Directive(fmt[start..], NEW_SPEC, args0, attrs).value;
              && start < i <= |fmt| && d.fmt == fmt[i..] && d.args == args
              && out == old(out) + ExpandAll(d.text)
              && (Output == Truncating ==> Context.len + Pos <= old(Context.len + Pos) + |ExpandAll(d.text)|)
    {
      hide PoolPrint.Contents, Valid, Expand, ExpandAll, Directive;
      ghost var d := Directive(fmt[start..], NEW_SPEC, args0, attrs);
      var ended, spec := false, NEW_SPEC;
      i, args := start, args0;
      RestoreAttr := 0;
      var scratch := new Char16[PRINT_ITEM_BUFFER_LEN](_ => 0);
      while !ended
        invariant start <= i <= |fmt| && Valid() && Pos < PRINT_STRING_LEN - 1 && SameTarget()
        invariant scratch != Context.str
        invariant !ended ==> d == Directive(fmt[i..], spec, args, attrs) && out == old(out)
        invariant !ended && Output == Truncating ==> Context.len + Pos <= old(Context.len + Pos)
        invariant ended ==> start < i && d.value.fmt == fmt[i..] && d.value.args == args
        invariant ended ==> out == old(out) + ExpandAll(d.value.text)
        invariant ended && Output == Truncating ==>
                    Context.len + Pos <= old(Context.len + Pos) + |ExpandAll(d.value.text)|
        decreases |fmt| - i, !ended
      {
        ended, i, spec, args := DirectiveStep(fmt, i, spec, args, scratch);
      }
      if RestoreAttr != 0 {
        PSETATTR(RestoreAttr);
      }
    }

    /** `_Print` */
    method Print(fmt: Text, args0: seq<Arg>) returns (n: nat)
      requires Valid() && Pos == 0 && out == [] && Render(fmt, args0, attrs).Some?
      requires Room(|ExpandAll(Render(fmt, args0, attrs).value.text)|)
      modifies this`Pos, this`Len, this`requests, this`dry, this`lost, this`out, this`Attr, this`RestoreAttr
      modifies Buffer, Context, Context.str
      ensures var all := ExpandAll(Render(fmt, args0, attrs).value.text);
              Delivered(prior + all) && SameTarget() && n == |all|
      ensures Context.str != null && (Output == Growing || Context.maxlen > 0) ==> Context.Closed()
      ensures Output == Growing ==> (Context.str == null <==> requests > 0 && !grants(requests - 1))
    {
      hide PoolPrint.Contents, PoolPrint.Closed, Valid, Delivered, Expand, ExpandAll, Directive;
      ghost var all := Render(fmt, args0, attrs).value.text;
      ghost var done: Text := [];
      var i, args := 0, args0;
      NothingPrinted();
      assert fmt[0..] == fmt && [] + all == all;
      while i < |fmt|
        invariant i <= |fmt| && Render(fmt[i..], args, attrs).Some?
        invariant all == done + Render(fmt[i..], args, attrs).value.text
        invariant Valid() && Pos < PRINT_STRING_LEN - 1 && SameTarget() && out == ExpandAll(done)
        invariant Output == Truncating ==> Context.len + Pos <= old(Context.len + Pos) + |out|
        decreases |fmt| - i
      {
        ghost var rest := Render(fmt[i..], args, attrs).value.text;
        assert fmt[i..][0] == fmt[i] && fmt[i..][1..] == fmt[i + 1..];
        ExpandConcat(done, rest);
        if fmt[i] != PERCENT {
          RoomSplit(done, [fmt[i]], Render(fmt[i + 1..], args, attrs).value.text);
          ExpandFew(fmt[i]);
          PPUTC(fmt[i]);
          done := done + [fmt[i]];
          i := i + 1;
        } else {
          ghost var d := Directive(fmt[i + 1..], NEW_SPEC, args, attrs).value;
          RoomSplit(done, d.text, Render(d.fmt, d.args, attrs).value.text);
          i, args := PrintDirective(fmt, i + 1, args);
          done := done + d.text;
        }
      }
      assert all == done;
      n := Len;
      AllCounted();
      PFLUSH();
      AllDelivered();
    }

    lemma AllCounted()
      requires Valid()
      ensures Len == |out|
    {
    }

    lemma AllDelivered()
      requires Valid() && Pos == 0
      ensures Delivered(prior + out)
    {
      assert out[..|out|] == out;
    }

    /** The terminated string ends what has been sent to it. */
    lemma GrownEnd(all: seq<Char16>)
      requires Delivered(all) && Output == Growing && Context.str != null && Context.Closed()
      ensures HoldsEnd(Context.str[..], all, lost)
    {
    }

    lemma TruncatedStart(all: seq<Char16>)
      requires Delivered(all) && Output == Truncating
      ensures Context.str != null && Context.Valid()
      ensures Context.len == (if |all| > Context.maxlen then Context.maxlen else |all|) <= Context.str.Length
      ensures Context.str[..Context.len] == all[..Context.len]
    {
    }

    lemma LostIff(all: seq<Char16>)
      requires Delivered(all) && Output == Growing
      ensures Context.Valid() && (Context.str != null ==> Context.maxlen <= Context.str.Length)
      ensures dry <= requests && (prior != [] ==> dry == 0)
      ensures lost == 0 <==> forall i :: dry <= i < requests ==> grants(i)
    {
    }

    method Stage(c: Unit)
      requires Valid() && Pos < PRINT_STRING_LEN - 1
      modifies this`Pos, this`Len, this`out, Buffer
      ensures Valid() && Pos == old(Pos) + 1 && out == old(out) + [c]
    {
      hide PoolPrint.Contents;
      Buffer[Pos] := c;
      Pos := Pos + 1;
      Len := Len + 1;
      out := out + [c];
      assert out[..|out| - Pos] == old(out)[..|old(out)| - old(Pos)];
    }
  }

  lemma NothingPrinted()
    ensures ExpandAll([]) == []
  {
  }

  lemma ExpandFew(c: Unit)
    ensures ExpandAll([c]) == Expand(c)
  {
    assert ExpandAll([c]) == Expand(c) + ExpandAll([]);
  }

  /** The parts of what is printed. */
  lemma RoomSplit(done: Text, now: Text, later: Text)
    ensures done + (now + later) == (done + now) + later
    ensures ExpandAll(done + now) == ExpandAll(done) + ExpandAll(now)
    ensures |ExpandAll(done + (now + later))| == |ExpandAll(done)| + |ExpandAll(now)| + |ExpandAll(later)|
  {
    hide ExpandAll;
    assert done + (now + later) == (done + now) + later;
    ExpandConcat(done + now, later);
    ExpandConcat(done, now);
  }

  lemma NotAtEnd(fmt: Text, i: nat, spec: Spec, args: seq<Arg>, attrs: Attrs)
    requires i <= |fmt| && Directive(fmt[i..], spec, args, attrs).Some?
    ensures i < |fmt|
  {
  }

  lemma DirectiveWidth(fmt: Text, i: nat, spec: Spec, args: seq<Arg>, attrs: Attrs)
    requires i < |fmt| && ONE <= fmt[i] <= NINE
    ensures var p := NumberPrefix(10, fmt[i..]);
            && i + |p| <= |fmt|
            && Directive(fmt[i..], spec, args, attrs)
               == Directive(fmt[i + |p|..], spec.WithWidth(Value(10, p) % W64), args, attrs)
  {
    hide Value, NumberPrefix, Act, ItemText;
    DigitsAreThere(fmt[i..]);
    var p := NumberPrefix(10, fmt[i..]);
    assert fmt[i..][|p|..] == fmt[i + |p|..];
  }

  lemma DirectiveChar(fmt: Text, i: nat, spec: Spec, args: seq<Arg>, attrs: Attrs)
    requires i < |fmt| && !(ONE <= fmt[i] <= NINE)
    ensures Directive(fmt[i..], spec, args, attrs) ==
            match Act(fmt[i], spec, args, attrs)
            case More(spec', rest) => Directive(fmt[i + 1..], spec', rest, attrs)
            case SetAttr(_) => Directive(fmt[i + 1..], spec, args, attrs)
            case EndAttr(_) => Some(Done([], fmt[i + 1..], args))
            case Emit(item, rest) => Some(Done(ItemText(item), fmt[i + 1..], rest))
            case Bad => None
  {
    hide Act, ItemText;
    assert fmt[i..][0] == fmt[i] && fmt[i..][1..] == fmt[i + 1..];
  }

  /** A width's digits, one at a time. */
  lemma PrefixStep(fmt: Text, i: nat)
    requires i < |fmt| && ZERO <= fmt[i] <= NINE
    ensures NumberPrefix(10, fmt[i..]) == [fmt[i]] + NumberPrefix(10, fmt[i + 1..])
    ensures Continues(10, fmt[i]) && CharValue(10, fmt[i]) == fmt[i] - ZERO
  {
    assert fmt[i..][1..] == fmt[i + 1..];
  }

  lemma PrefixEnds(fmt: Text, i: nat)
    requires i <= |fmt| && !(ZERO <= At(fmt, i) <= NINE)
    ensures NumberPrefix(10, fmt[i..]) == []
    ensures i < |fmt| ==> !Continues(10, fmt[i])
  {
  }

  lemma SentSplit(prior: seq<Char16>, out: Text, n: nat)
    requires n <= |out|
    ensures prior + out == (prior + out[..|out| - n]) + out[|out| - n..]
  {
  }

  lemma ExpandPrefix(t: Text, i: nat)
    requires i < |t|
    ensures ExpandAll(t[..i + 1]) == ExpandAll(t[..i]) + Expand(t[i])
    ensures |ExpandAll(t[..i + 1])| <= |ExpandAll(t)|
  {
    assert t[..i + 1] == t[..i] + [t[i]] && t == t[..i + 1] + t[i + 1..];
    ExpandSnoc(t[..i], t[i]);
    ExpandConcat(t[..i + 1], t[i + 1..]);
  }

  lemma ExpandSnoc(t: Text, c: Unit)
    ensures ExpandAll(t + [c]) == ExpandAll(t) + Expand(c)
  {
    ExpandConcat(t, [c]);
    assert ExpandAll([c]) == Expand(c) + ExpandAll([]);
  }

  // ----- The printing functions -----

  /** Copies of the last part of a text: what is left after a refused growth. */
  ghost predicate HoldsEnd(m: seq<Char16>, t: seq<Char16>, lost: nat) {
    lost <= |t| && |t| - lost < |m| && m[..|t| - lost] == t[lost..] && m[|t| - lost] == 0
  }

  lemma EndIsAll(m: seq<Char16>, t: Text)
    requires HoldsEnd(m, t, 0)
    ensures HoldsText(m, t)
  {
  }

  /** The string's size in characters, less one for the terminator; the subtraction wraps when
      the size given is less than one character, which stands for no limit. */
  function MaxLength(strSize: nat): nat {
    if strSize / 2 == 0 then UINTN_MAX else strSize / 2 - 1
  }

  /** What reaches a string. */
  ghost function Printout(fmt: Text, args: seq<Arg>): Text
    requires Render(fmt, args, Attrs(0, 0, 0)).Some?
  {
    ExpandAll(Render(fmt, args, Attrs(0, 0, 0)).value.text)
  }

  /** The printed text is that of the format, with every line feed expanded. */
  lemma PrintoutMeans(fmt: Text, args: seq<Arg>, a: Text, b: Text)
    requires Render(fmt, args, Attrs(0, 0, 0)).Some?
    ensures Render(fmt, args, Attrs(0, 0, 0)).value.text == a && (forall i :: 0 <= i < |a| ==> a[i] != 10) ==>
              Printout(fmt, args) == a
    ensures Render(fmt, args, Attrs(0, 0, 0)).value.text == a + [10] + b ==>
              Printout(fmt, args) == ExpandAll(a) + [13, 10] + ExpandAll(b)
  {
    hide Render, ExpandAll;
    ExpandMeans(a, b);
    if forall i :: 0 <= i < |a| ==> a[i] != 10 { ExpandKeeps(a); }
  }

  method VSPrint(str: array<Char16>, strSize: nat, fmt: Text, args: seq<Arg>) returns (len: nat)
    requires strSize <= 2 * str.Length && Render(fmt, args, Attrs(0, 0, 0)).Some?
    requires strSize / 2 == 0 ==> |Printout(fmt, args)| < str.Length
    modifies str
    ensures var all := Printout(fmt, args);
            var max := if strSize < 2 then 0xFFFF_FFFF_FFFF_FFFF else strSize / 2 - 1;
            && len == (if |all| > max then max else |all|) <= str.Length
            && str[..len] == all[..len]
            && (max > 0 ==> len < str.Length && str[len] == 0)
  {
    hide ExpandAll, Render, PrintState.Valid, PrintState.Delivered;
    var spc := new PoolPrint(str, 0, MaxLength(strSize));
    var ps := new PrintState(Truncating, spc, _ => false);
    var n := ps.Print(fmt, args);
    ghost var all := Printout(fmt, args);
    assert [] + all == all;
    ps.TruncatedStart(all);
    len := spc.len;
  }

  method VPoolPrint(fmt: Text, args: seq<Arg>, grants: nat -> bool)
    returns (str: array?<Char16>, ghost lost: nat, ghost dry: nat, ghost requests: nat)
    requires Render(fmt, args, Attrs(0, 0, 0)).Some?
    ensures var all := Printout(fmt, args);
            (forall i :: grants(i)) ==> str != null && |all| < str.Length && str[..|all|] == all && str[|all|] == 0
    ensures dry <= requests && (lost == 0 <==> forall i :: dry <= i < requests ==> grants(i))
    ensures str == null <==> requests > 0 && !grants(requests - 1)
    ensures var all := Printout(fmt, args);
            str != null ==>
              && lost <= |all| && |all| - lost < str.Length
              && str[..|all| - lost] == all[lost..] && str[|all| - lost] == 0
  {
    hide Printout, Render, HoldsEnd;
    var spc := new PoolPrint(null, 0, 0);
    assert spc.Contents() == [] && [] + Printout(fmt, args) == Printout(fmt, args);
    lost, dry, requests := CatPrint(spc, fmt, args, grants);
    str := spc.str;
    if str != null && lost == 0 {
      EndIsAll(str[..], Printout(fmt, args));
    }
  }

  /** The string is the whole output behind what it held, from place `lost` on: without its
      beginning exactly when the pool refused a request, other than the first `dry` ones, which
      were made when there was nothing to lose. It is null exactly when the last request was
      refused. */
  method CatPrint(spc: PoolPrint, fmt: Text, args: seq<Arg>, grants: nat -> bool)
    returns (ghost lost: nat, ghost dry: nat, ghost requests: nat)
    requires spc.Valid() && (spc.str != null ==> spc.maxlen <= spc.str.Length)
    requires Render(fmt, args, Attrs(0, 0, 0)).Some?
    modifies spc, spc.str
    ensures spc.Valid() && (spc.str != null ==> spc.maxlen <= spc.str.Length)
    ensures dry <= requests && (old(spc.Contents()) != [] ==> dry == 0)
    ensures lost == 0 <==> forall i :: dry <= i < requests ==> grants(i)
    ensures spc.str == null <==> requests > 0 && !grants(requests - 1)
    ensures var all := (if old(spc.str) == null then [] else old(spc.str[..spc.len])) + Printout(fmt, args);
            spc.str != null ==>
              && lost <= |all| && |all| - lost < spc.str.Length
              && spc.str[..|all| - lost] == all[lost..] && spc.str[|all| - lost] == 0
  {
    hide ExpandAll, Render, PrintState.Valid, PrintState.Delivered, PoolPrint.Closed;
    var ps := new PrintState(Growing, spc, grants);
    var n := ps.Print(fmt, args);
    lost, dry, requests := ps.lost, ps.dry, ps.requests;
    ghost var all := old(spc.Contents()) + Printout(fmt, args);
    ps.LostIff(all);
    if spc.str != null {
      ps.GrownEnd(all);
    }
  }

  /** A string that held an A, was sent a B and a C, and holds a C: the pool refused the block for
      the B. */
  method LoseBeginning() returns (spc: PoolPrint)
    ensures fresh(spc) && spc.Valid() && spc.Contents() == ['C' as int]
  {
    var str := new Char16[2](_ => 0);
    var buffer := new Char16[2](_ => 0);
    str[0], buffer[0] := 'A' as int, 'B' as int;
    spc := new PoolPrint(str, 1, 2);
    var asked := spc.PoolPrint(buffer, false, ['B' as int]);
    buffer[0] := 'C' as int;
    asked := spc.PoolPrint(buffer, true, ['C' as int]);
  }
}
