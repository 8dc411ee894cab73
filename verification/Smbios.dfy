/** Walking the SMBIOS table (gnu-efi/lib/smbios.c): each structure is a formatted area followed
    by a set of NUL-terminated strings and one more NUL. */
module Smbios {
  import opened Common

  /** A string without its terminator. */
  type Chars = seq<Byte>

  datatype Structure = Structure(area: seq<Byte>, strings: seq<Chars>)

  ghost predicate NonZero(s: Chars) {
    forall i :: 0 <= i < |s| ==> s[i] != 0
  }

  ghost predicate AreStrings(strings: seq<Chars>) {
    forall i :: 0 <= i < |strings| ==> strings[i] != [] && NonZero(strings[i])
  }

  /** The second byte of the area is its length; a header has four bytes. */
  ghost predicate WellFormed(s: Structure) {
    4 <= |s.area| && s.area[1] == |s.area| && AreStrings(s.strings)
  }

  // ----- Encoding -----

  /** A set without strings is written like one with a single empty string. */
  function Written(strings: seq<Chars>): seq<Chars> {
    if strings == [] then [[]] else strings
  }

  function Strings(strings: seq<Chars>): seq<Byte> {
    if strings == [] then [] else strings[0] + [0] + Strings(strings[1..])
  }

  function StringSet(strings: seq<Chars>): seq<Byte> {
    Strings(Written(strings)) + [0]
  }

  function Encode(s: Structure): (r: seq<Byte>)
  {
    s.area + StringSet(s.strings)
  }

  function EncodeAll(structures: seq<Structure>): seq<Byte> {
    if structures == [] then [] else EncodeAll(structures[..|structures| - 1]) + Encode(structures[|structures| - 1])
  }

  predicate Holds(mem: seq<Byte>, p: nat, bytes: seq<Byte>) {
    p + |bytes| <= |mem| && mem[p..p + |bytes|] == bytes
  }

  // ----- The encoding is unambiguous -----

  lemma {:induction false} SameString(s: Chars, t: Chars, x: seq<Byte>, y: seq<Byte>)
    requires NonZero(s) && NonZero(t) && s + [0] + x == t + [0] + y
    ensures s == t && x == y
    decreases |s|
  {
    var l, r := s + [0] + x, t + [0] + y;
    assert l[0] == r[0];
    if s == [] || t == [] {
      assert s == [] && t == [];
      assert l[1..] == x && r[1..] == y;
    } else {
      assert l[0] == s[0] && r[0] == t[0];
      assert l[1..] == s[1..] + [0] + x && r[1..] == t[1..] + [0] + y;
      SameString(s[1..], t[1..], x, y);
      assert s == [s[0]] + s[1..] && t == [t[0]] + t[1..];
    }
  }

  lemma StringsHead(strings: seq<Chars>, x: seq<Byte>)
    requires strings != []
    ensures Strings(strings) + x == strings[0] + [0] + (Strings(strings[1..]) + x)
  {
  }

  /** A zero byte ends the set, and only that does. */
  lemma {:induction false} SameSet(a: seq<Chars>, b: seq<Chars>, x: seq<Byte>, y: seq<Byte>)
    requires AreStrings(a) && AreStrings(b)
    requires Strings(a) + ([0] + x) == Strings(b) + ([0] + y)
    ensures a == b && x == y
    decreases |a|
  {
    hide Strings;
    var l, r := Strings(a) + ([0] + x), Strings(b) + ([0] + y);
    NextByte(a, x);
    NextByte(b, y);
    assert l[0] == r[0];
    if a == [] {
      assert b == [];
      NoStrings(a, [0] + x);
      NoStrings(b, [0] + y);
      assert x == ([0] + x)[1..] && y == ([0] + y)[1..];
    } else {
      StringsHead(a, [0] + x);
      StringsHead(b, [0] + y);
      SameString(a[0], b[0], Strings(a[1..]) + ([0] + x), Strings(b[1..]) + ([0] + y));
      SameSet(a[1..], b[1..], x, y);
      assert a == [a[0]] + a[1..] && b == [b[0]] + b[1..];
    }
  }

  lemma NoStrings(a: seq<Chars>, x: seq<Byte>)
    requires a == []
    ensures Strings(a) + x == x
  {
  }

  lemma NextByte(a: seq<Chars>, x: seq<Byte>)
    requires AreStrings(a)
    ensures (Strings(a) + ([0] + x))[0] == 0 <==> a == []
  {
    if a != [] {
      assert Strings(a)[0] == a[0][0];
    }
  }

  lemma WrittenSame(a: seq<Chars>, b: seq<Chars>, x: seq<Byte>, y: seq<Byte>)
    requires AreStrings(a) && AreStrings(b) && StringSet(a) + x == StringSet(b) + y
    ensures a == b && x == y
  {
    hide Strings;
    SetSplit(a, x);
    SetSplit(b, y);
    if a == [] && b == [] {
      assert StringSet(a) == StringSet(b);
      var n := |StringSet(a)|;
      assert x == (StringSet(a) + x)[n..] && y == (StringSet(b) + y)[n..];
    } else if a != [] && b != [] {
      SameSet(a, b, x, y);
    } else {
      EmptyFirst(a, x);
      EmptyFirst(b, y);
      assert false;
    }
  }

  lemma SetSplit(a: seq<Chars>, x: seq<Byte>)
    ensures StringSet(a) + x == Strings(Written(a)) + ([0] + x)
  {
  }

  lemma EmptyFirst(a: seq<Chars>, x: seq<Byte>)
    requires AreStrings(a)
    ensures (StringSet(a) + x)[0] == 0 <==> a == []
  {
    SetSplit(a, x);
    if a == [] { assert Strings(Written(a)) == [0]; } else { NextByte(a, x); }
  }

  /** The bytes determine the structure and where it ends. */
  lemma EncodeUnambiguous(s: Structure, t: Structure, x: seq<Byte>, y: seq<Byte>)
    requires WellFormed(s) && WellFormed(t) && Encode(s) + x == Encode(t) + y
    ensures s == t && x == y
  {
    hide StringSet;
    var l, r := Encode(s) + x, Encode(t) + y;
    assert l[1] == s.area[1] && r[1] == t.area[1];
    assert l[..|s.area|] == s.area && r[..|t.area|] == t.area;
    assert l[|s.area|..] == StringSet(s.strings) + x && r[|t.area|..] == StringSet(t.strings) + y;
    WrittenSame(s.strings, t.strings, x, y);
  }

  // ----- LibGetSmbiosString -----

  /** The strings after the first `i`, in place. */
  ghost predicate RestAt(mem: seq<Byte>, p: nat, strings: seq<Chars>, i: nat)
    requires i <= |strings|
  {
    Holds(mem, p, Strings(strings[i..]) + [0])
  }

  function StringOffset(strings: seq<Chars>, i: nat): nat
    requires i <= |strings|
  {
    if i == 0 then 0 else StringOffset(strings, i - 1) + |strings[i - 1]| + 1
  }

  lemma {:induction false} OffsetsFill(strings: seq<Chars>, i: nat)
    requires i <= |strings|
    ensures StringOffset(strings, i) + |Strings(strings[i..])| == |Strings(strings)|
  {
    if i == 0 {
      assert strings[0..] == strings;
    } else {
      OffsetsFill(strings, i - 1);
      assert strings[i - 1..][1..] == strings[i..];
    }
  }

  lemma HoldsSplit(mem: seq<Byte>, p: nat, a: seq<Byte>, b: seq<Byte>)
    ensures Holds(mem, p, a + b) <==> Holds(mem, p, a) && Holds(mem, p + |a|, b)
  {
    var n := |a| + |b|;
    if p + n <= |mem| {
      var s := mem[p..p + n];
      assert s[..|a|] == mem[p..p + |a|] && s[|a|..] == mem[p + |a|..p + |a| + |b|];
      assert s == s[..|a|] + s[|a|..];
      assert (a + b)[..|a|] == a && (a + b)[|a|..] == b;
    }
  }

  lemma HoldsByte(mem: seq<Byte>, p: nat, b: Byte)
    requires Holds(mem, p, [b])
    ensures mem[p] == b
  {
    assert mem[p..p + 1][0] == b;
  }

  lemma RestSplit(mem: seq<Byte>, p: nat, strings: seq<Chars>, i: nat)
    requires i < |strings| && RestAt(mem, p, strings, i)
    ensures Holds(mem, p, strings[i] + [0])
    ensures RestAt(mem, p + |strings[i]| + 1, strings, i + 1)
  {
    hide Holds;
    assert strings[i..][1..] == strings[i + 1..];
    assert Strings(strings[i..]) + [0] == (strings[i] + [0]) + (Strings(strings[i + 1..]) + [0]);
    HoldsSplit(mem, p, strings[i] + [0], Strings(strings[i + 1..]) + [0]);
  }

  /** What follows a string: another one, or the end of the set. */
  lemma AfterString(mem: seq<Byte>, p: nat, strings: seq<Chars>, i: nat)
    requires 0 < i <= |strings| && RestAt(mem, p, strings, i)
    requires |strings| == 1 || AreStrings(strings)
    ensures p < |mem| && (mem[p] == 0 <==> i == |strings|)
  {
    hide Holds;
    if i == |strings| {
      assert Strings(strings[i..]) + [0] == [0];
      HoldsByte(mem, p, 0);
      Inside(mem, p, [0]);
    } else {
      RestSplit(mem, p, strings, i);
      var s := strings[i];
      assert s != [] && NonZero(s);
      assert s + [0] == [s[0]] + (s[1..] + [0]);
      HoldsSplit(mem, p, [s[0]], s[1..] + [0]);
      HoldsByte(mem, p, s[0]);
      Inside(mem, p, [s[0]]);
    }
  }

  lemma Inside(mem: seq<Byte>, p: nat, b: seq<Byte>)
    requires Holds(mem, p, b) && b != []
    ensures p < |mem|
  {
  }

  method SkipString(mem: seq<Byte>, p: nat, ghost s: Chars) returns (q: nat)
    requires NonZero(s) && Holds(mem, p, s + [0])
    ensures q == p + |s|
  {
    ghost var m := mem[p..p + |s| + 1];
    assert m == s + [0];
    assert forall i :: 0 <= i < |m| ==> m[i] == mem[p + i];
    q := p;
    while mem[q] != 0
      invariant p <= q <= p + |s|
      decreases p + |s| - q
    {
      q := q + 1;
    }
  }

  /** The number of strings one can ask for without moving on. */
  function Last(s: Structure): nat {
    |Written(s.strings)|
  }

  lemma {:induction false} OffsetIsSize(strings: seq<Chars>, i: nat)
    requires i <= |Written(strings)| && (strings == [] ==> i == 0)
    ensures StringOffset(Written(strings), i) == |Strings(strings[..if strings == [] then 0 else i])|
  {
    if i == 0 {
    } else {
      OffsetIsSize(strings, i - 1);
      StringsSnoc(strings[..i - 1], strings[i - 1]);
      assert strings[..i] == strings[..i - 1] + [strings[i - 1]];
    }
  }

  lemma {:induction false} StringsSnoc(strings: seq<Chars>, t: Chars)
    ensures |Strings(strings + [t])| == |Strings(strings)| + |t| + 1
  {
    if strings == [] {
      assert Strings([t]) == t + [0] + Strings([]);
    } else {
      assert (strings + [t])[0] == strings[0] && (strings + [t])[1..] == strings[1..] + [t];
      StringsSnoc(strings[1..], t);
    }
  }

  /** Where string `k` of a structure at `raw` is. */
  function StringAt(raw: nat, s: Structure, k: nat): nat
    requires 1 <= k <= Last(s)
  {
    raw + |s.area| + StringOffset(Written(s.strings), k - 1)
  }

  lemma StringsFollow(mem: seq<Byte>, raw: nat, s: Structure)
    requires WellFormed(s) && Holds(mem, raw, Encode(s))
    ensures raw + 1 < |mem| && mem[raw + 1] == |s.area|
    ensures RestAt(mem, raw + |s.area|, Written(s.strings), 0)
  {
    HoldsSplit(mem, raw, s.area, StringSet(s.strings));
    assert mem[raw..raw + |s.area|][1] == mem[raw + 1];
    assert Written(s.strings)[0..] == Written(s.strings);
  }

  lemma WrittenStrings(s: Structure, i: nat)
    requires WellFormed(s) && i < Last(s)
    ensures NonZero(Written(s.strings)[i]) && (Last(s) == 1 || AreStrings(Written(s.strings)))
  {
  }

  lemma FirstString(raw: nat, s: Structure)
    ensures Last(s) >= 1 && StringAt(raw, s, 1) == raw + |s.area|
  {
  }

  lemma NextString(raw: nat, s: Structure, k: nat)
    requires 1 <= k <= Last(s)
    ensures var p := StringAt(raw, s, k) + |Written(s.strings)[k - 1]| + 1;
            if k < Last(s) then p == StringAt(raw, s, k + 1) else p + 1 == raw + |Encode(s)|
  {
    OffsetsFill(Written(s.strings), Last(s));
  }

  lemma StringPlace(raw: nat, s: Structure, k: nat)
    requires 1 <= k <= Last(s)
    ensures var before := s.strings[..if s.strings == [] then 0 else k - 1];
            StringAt(raw, s, k) == raw + |s.area| + |Strings(before)|
  {
    OffsetIsSize(s.strings, k - 1);
  }

  /** A number that the structure has gives that string and stays (number 1 of a structure without
      strings gives an empty one); zero gives nothing and stays; any other number gives nothing
      and moves to just behind the structure. */
  method LibGetSmbiosString(mem: seq<Byte>, raw0: nat, stringNumber: nat, ghost s: Structure)
    returns (string': Option<nat>, raw: nat)
    requires WellFormed(s) && Holds(mem, raw0, Encode(s)) && stringNumber < 0x1_0000
    ensures raw == if stringNumber <= Last(s) then raw0 else raw0 + |Encode(s)|
    ensures string'.Some? <==> 1 <= stringNumber <= Last(s)
    ensures string'.Some? ==>
              && string'.value == StringAt(raw0, s, stringNumber)
              && (var before := s.strings[..if s.strings == [] then 0 else stringNumber - 1];
                  string'.value == raw0 + |s.area| + |Strings(before)|)
              && Holds(mem, string'.value, Written(s.strings)[stringNumber - 1] + [0])
  {
    hide Holds, AreStrings, NonZero, Encode, Strings, StringAt, RestAt, WellFormed;
    StringsFollow(mem, raw0, s);
    FirstString(raw0, s);
    raw := raw0;
    ghost var strings := Written(s.strings);
    var p: nat := raw + mem[raw + 1];
    var index := 1;
    while index <= stringNumber
      invariant 1 <= index <= Last(s) && index <= stringNumber + 1 && raw == raw0
      invariant p == StringAt(raw0, s, index) && RestAt(mem, p, strings, index - 1)
      invariant stringNumber == 0 || index <= stringNumber
      decreases Last(s) - index
    {
      RestSplit(mem, p, strings, index - 1);
      if stringNumber == index {
        StringPlace(raw0, s, index);
        return Some(p), raw;
      }
      WrittenStrings(s, index - 1);
      p := SkipString(mem, p, strings[index - 1]);
      p := p + 1;
      AfterString(mem, p, strings, index);
      NextString(raw0, s, index);
      if mem[p] == 0 {
        return None, p + 1;
      }
      index := index + 1;
    }
    return None, raw;
  }

  // ----- The search for the system structure -----

  ghost predicate TableFormed(structures: seq<Structure>) {
    forall i :: 0 <= i < |structures| ==> WellFormed(structures[i]) && |structures[i].strings| < 0xffff
  }

  function Boundary(structures: seq<Structure>, i: nat): nat
    requires i <= |structures|
  {
    |EncodeAll(structures[..i])|
  }

  lemma BoundaryStep(structures: seq<Structure>, i: nat)
    requires i < |structures| && |structures[i].area| >= 4
    ensures Boundary(structures, i + 1) == Boundary(structures, i) + |Encode(structures[i])|
    ensures Boundary(structures, i + 1) >= Boundary(structures, i) + 5
  {
    assert structures[..i + 1][..i] == structures[..i];
  }

  lemma {:induction false} BoundariesRise(structures: seq<Structure>, i: nat)
    requires i <= |structures| && TableFormed(structures)
    ensures Boundary(structures, i) >= i
  {
    hide Boundary, TableFormed;
    if i == 0 {
    } else {
      BoundariesRise(structures, i - 1);
      Formed(structures, i - 1);
      BoundaryStep(structures, i - 1);
    }
  }

  lemma Formed(structures: seq<Structure>, i: nat)
    requires i < |structures| && TableFormed(structures)
    ensures WellFormed(structures[i]) && |structures[i].strings| < 0xffff && 4 <= |structures[i].area|
  {
  }

  lemma {:induction false} StructureAt(mem: seq<Byte>, start: nat, structures: seq<Structure>, i: nat)
    requires i < |structures| && Holds(mem, start, EncodeAll(structures))
    ensures Holds(mem, start + Boundary(structures, i), Encode(structures[i]))
    decreases |structures|
  {
    hide Holds, Encode;
    var n := |structures| - 1;
    HoldsSplit(mem, start, EncodeAll(structures[..n]), Encode(structures[n]));
    if i == n {
    } else {
      StructureAt(mem, start, structures[..n], i);
      assert structures[..n][..i] == structures[..i];
    }
  }

  /** The type byte of a structure. */
  function Type(s: Structure): Byte {
    if s.area == [] then 0 else s.area[0]
  }

  ghost predicate NoSystem(structures: seq<Structure>, n: nat)
    requires n <= |structures|
  {
    forall i :: 0 <= i < n ==> Type(structures[i]) != 1
  }

  /** `i` is the first system structure. */
  ghost predicate FirstSystem(structures: seq<Structure>, i: nat) {
    i < |structures| && Type(structures[i]) == 1 && NoSystem(structures, i)
  }

  datatype SystemInfo = SystemInfo(guid: seq<Byte>, serial: Option<nat>)
  datatype Result = NotFound | Success(info: Option<SystemInfo>)

  /** What the structure at `raw` tells: nothing if it is of an older version. */
  ghost predicate Tells(mem: seq<Byte>, raw: nat, s: Structure, info: Option<SystemInfo>) {
    if |s.area| < 0x19 then info == None
    else
      && info.Some? && info.value.guid == s.area[8..24]
      && (info.value.serial.Some? <==> 1 <= s.area[7] <= Last(s))
      && (info.value.serial.Some? ==>
            && info.value.serial.value == StringAt(raw, s, s.area[7])
            && Holds(mem, info.value.serial.value, Written(s.strings)[s.area[7] - 1] + [0]))
  }

  /** Structure `i` begins within the stated length. */
  ghost predicate Reaches(structures: seq<Structure>, i: nat, tableLength: nat) {
    i <= |structures| && Boundary(structures, i) < tableLength
  }

  /** The identity and serial number are those of the first system structure, if the stated table
      length reaches it; otherwise there are none. */
  ghost predicate Outcome(mem: seq<Byte>, start: nat, structures: seq<Structure>, tableLength: nat,
                          info: Option<SystemInfo>)
  {
    && (forall k: nat :: FirstSystem(structures, k) && Reaches(structures, k, tableLength) ==>
          Tells(mem, start + Boundary(structures, k), structures[k], info))
    && ((forall k: nat :: FirstSystem(structures, k) ==> !Reaches(structures, k, tableLength)) ==> info == None)
  }

  lemma OutcomeAt(mem: seq<Byte>, start: nat, structures: seq<Structure>, tableLength: nat,
                  info: Option<SystemInfo>, k: nat)
    requires FirstSystem(structures, k) && Reaches(structures, k, tableLength)
    requires Tells(mem, start + Boundary(structures, k), structures[k], info)
    ensures Outcome(mem, start, structures, tableLength, info)
  {
    hide Tells, Boundary;
  }

  lemma OutcomeNone(mem: seq<Byte>, start: nat, structures: seq<Structure>, tableLength: nat, i: nat)
    requires i <= |structures| && NoSystem(structures, i) && TableFormed(structures)
    requires Boundary(structures, i) >= tableLength
    ensures Outcome(mem, start, structures, tableLength, None)
  {
    hide Tells, Boundary, TableFormed;
    forall k: nat | FirstSystem(structures, k) ensures !Reaches(structures, k, tableLength) {
      assert k >= i;
      BoundaryMonotone(structures, i, k);
    }
  }

  lemma {:induction false} BoundaryMonotone(structures: seq<Structure>, i: nat, k: nat)
    requires i <= k <= |structures| && TableFormed(structures)
    ensures Boundary(structures, i) <= Boundary(structures, k)
  {
    hide Boundary, TableFormed;
    if i == k {
    } else {
      BoundaryMonotone(structures, i, k - 1);
      Formed(structures, k - 1);
      BoundaryStep(structures, k - 1);
    }
  }

  lemma Header(mem: seq<Byte>, raw: nat, s: Structure)
    requires WellFormed(s) && Holds(mem, raw, Encode(s))
    ensures 4 <= |s.area| && raw + |s.area| <= |mem| && mem[raw] == Type(s) && mem[raw + 1] == |s.area|
    ensures |s.area| >= 0x19 ==> mem[raw + 7] == s.area[7] && mem[raw + 8..raw + 24] == s.area[8..24]
  {
    HoldsSplit(mem, raw, s.area, StringSet(s.strings));
    var m := mem[raw..raw + |s.area|];
    assert m[0] == mem[raw] && m[1] == mem[raw + 1];
    if |s.area| >= 0x19 {
      assert m[7] == mem[raw + 7];
      SubSlice(mem, raw, |s.area|, 8, 24);
    }
  }

  lemma SubSlice(mem: seq<Byte>, p: nat, n: nat, a: nat, b: nat)
    requires p + n <= |mem| && a <= b <= n
    ensures mem[p..p + n][a..b] == mem[p + a..p + b]
  {
    var l, r := mem[p..p + n][a..b], mem[p + a..p + b];
    forall i | 0 <= i < b - a ensures l[i] == r[i] {
      assert mem[p..p + n][a + i] == mem[p + a + i];
    }
  }

  lemma BoundaryEnds(structures: seq<Structure>)
    ensures Boundary(structures, 0) == 0 && Boundary(structures, |structures|) == |EncodeAll(structures)|
  {
    assert structures[..|structures|] == structures;
  }

  /** Reading a system structure that is long enough. */
  method ReadSystem(mem: seq<Byte>, raw: nat, ghost s: Structure) returns (info: Option<SystemInfo>)
    requires WellFormed(s) && Holds(mem, raw, Encode(s)) && |s.area| >= 0x19
    ensures Tells(mem, raw, s, info)
  {
    hide Holds, Encode, WellFormed;
    Header(mem, raw, s);
    var serial, _ := LibGetSmbiosString(mem, raw, mem[raw + 7], s);
    info := Some(SystemInfo(mem[raw + 8..raw + 24], serial));
  }

  datatype Step = Stay | Found(info: Option<SystemInfo>) | Next(raw: nat)

  /** One round of the walk, at structure `s`. */
  method Examine(mem: seq<Byte>, raw: nat, ghost s: Structure) returns (step: Step)
    requires WellFormed(s) && Holds(mem, raw, Encode(s)) && |s.strings| < 0xffff
    ensures match step
            case Stay => Type(s) == 1 && |s.area| < 0x19
            case Found(info) => Type(s) == 1 && Tells(mem, raw, s, info)
            case Next(next) => Type(s) != 1 && next == raw + |Encode(s)|
  {
    hide Holds, Encode, WellFormed, Tells, Last;
    Header(mem, raw, s);
    if mem[raw] == 1 {
      if mem[raw + 1] < 0x19 {
        return Stay;
      }
      var info := ReadSystem(mem, raw, s);
      return Found(info);
    }
    FewStrings(s);
    var _, next := LibGetSmbiosString(mem, raw, 0xffff, s);
    step := Next(next);
  }

  /** The walk stands on structure `i`, after structures that are no system structures. */
  ghost predicate Standing(start: nat, structures: seq<Structure>, tableLength: nat, raw: nat, i: nat) {
    && i < |structures| && raw == start + Boundary(structures, i)
    && NoSystem(structures, i) && Reaches(structures, i, tableLength)
  }

  lemma StandsAtFirst(start: nat, structures: seq<Structure>, tableLength: nat)
    requires 0 < tableLength <= |EncodeAll(structures)|
    ensures Standing(start, structures, tableLength, start, 0)
  {
    BoundaryEnds(structures);
  }

  lemma StandsOn(mem: seq<Byte>, start: nat, structures: seq<Structure>, tableLength: nat, raw: nat, i: nat)
    requires Standing(start, structures, tableLength, raw, i)
    requires Holds(mem, start, EncodeAll(structures)) && TableFormed(structures)
    ensures WellFormed(structures[i]) && Holds(mem, raw, Encode(structures[i])) && |structures[i].strings| < 0xffff
  {
    hide Holds, EncodeAll, Encode, WellFormed, Boundary;
    StructureAt(mem, start, structures, i);
  }

  /** Past a structure that is no system structure, the walk stands on the next or is over. */
  lemma StandsNext(mem: seq<Byte>, start: nat, structures: seq<Structure>, tableLength: nat, raw: nat, i: nat)
    requires Standing(start, structures, tableLength, raw, i) && Type(structures[i]) != 1
    requires TableFormed(structures) && tableLength <= |EncodeAll(structures)|
    ensures var next := raw + |Encode(structures[i])|;
            if next < start + tableLength then Standing(start, structures, tableLength, next, i + 1)
            else Outcome(mem, start, structures, tableLength, None)
  {
    hide EncodeAll, Encode, Boundary, Outcome;
    Formed(structures, i);
    BoundaryStep(structures, i);
    BoundaryEnds(structures);
    if Boundary(structures, i + 1) >= tableLength {
      OutcomeNone(mem, start, structures, tableLength, i + 1);
    }
  }

  lemma Stops(mem: seq<Byte>, start: nat, structures: seq<Structure>, tableLength: nat, raw: nat, i: nat,
              info: Option<SystemInfo>)
    requires Standing(start, structures, tableLength, raw, i) && Type(structures[i]) == 1
    requires Tells(mem, raw, structures[i], info)
    ensures Outcome(mem, start, structures, tableLength, info)
  {
    hide Tells, Boundary;
    OutcomeAt(mem, start, structures, tableLength, info, i);
  }

  /** The index never ends the walk before the stated length does. */
  lemma Behind(start: nat, structures: seq<Structure>, tableLength: nat, raw: nat, i: nat)
    requires Standing(start, structures, tableLength, raw, i) && TableFormed(structures)
    ensures i < tableLength
  {
    BoundariesRise(structures, i);
  }

  /** One round, in terms of the search. */
  method Visit(mem: seq<Byte>, start: nat, tableLength: nat, raw: nat, ghost structures: seq<Structure>, ghost i: nat)
    returns (step: Step)
    requires Holds(mem, start, EncodeAll(structures)) && TableFormed(structures)
    requires tableLength <= |EncodeAll(structures)| && Standing(start, structures, tableLength, raw, i)
    ensures step.Stay? ==> Old(structures, i)
    ensures step.Found? ==> Outcome(mem, start, structures, tableLength, step.info)
    ensures step.Next? ==>
              if step.raw < start + tableLength then
                i + 1 < |structures| && Standing(start, structures, tableLength, step.raw, i + 1)
              else Outcome(mem, start, structures, tableLength, None)
  {
    hide Holds, EncodeAll, Encode, WellFormed, Tells, TableFormed, Outcome, FirstSystem, Boundary;
    StandsOn(mem, start, structures, tableLength, raw, i);
    step := Examine(mem, raw, structures[i]);
    match step
    case Stay =>
    case Found(info) => Stops(mem, start, structures, tableLength, raw, i, info);
    case Next(next) => StandsNext(mem, start, structures, tableLength, raw, i);
  }

  /** The memory at `start` holds the structures, which cover the stated length. A first system
      structure of an older version hides every later one: the walk stays on it. */
  method LibGetSmbiosSystemGuidAndSerialNumber(found: bool, mem: seq<Byte>, start: nat, tableLength: nat,
                                               ghost structures: seq<Structure>) returns (r: Result)
    requires found ==>
               && Holds(mem, start, EncodeAll(structures)) && TableFormed(structures)
               && tableLength <= |EncodeAll(structures)| && tableLength < 0x1_0000
    ensures r == NotFound <==> !found
    ensures found ==> Outcome(mem, start, structures, tableLength, r.info)
  {
    if !found {
      return NotFound;
    }
    hide Holds, EncodeAll, Encode, WellFormed, Tells, TableFormed, Outcome, Standing, FirstSystem, Boundary;
    var raw: nat := start;
    ghost var i: nat := 0;
    if tableLength == 0 {
      OutcomeNone(mem, start, structures, tableLength, 0);
    } else {
      StandsAtFirst(start, structures, tableLength);
    }
    for index := 0 to tableLength
      invariant tableLength > 0 ==> i < |structures| && Standing(start, structures, tableLength, raw, i)
      invariant tableLength > 0 ==> index == i || Old(structures, i)
    {
      var step := Visit(mem, start, tableLength, raw, structures, i);
      match step
      case Stay =>
      case Found(info) =>
        return Success(info);
      case Next(next) =>
        raw := next;
        if raw >= start + tableLength {
          return Success(None);
        }
        i := i + 1;
    }
    if tableLength > 0 {
      Behind(start, structures, tableLength, raw, i);
      OldTells(mem, raw, structures[i]);
      Stops(mem, start, structures, tableLength, raw, i, None);
    }
    r := Success(None);
  }

  ghost predicate Old(structures: seq<Structure>, i: nat) {
    i < |structures| && Type(structures[i]) == 1 && |structures[i].area| < 0x19
  }

  lemma OldTells(mem: seq<Byte>, raw: nat, s: Structure)
    requires |s.area| < 0x19
    ensures Tells(mem, raw, s, None)
  {
  }

  lemma FewStrings(s: Structure)
    requires |s.strings| < 0xffff
    ensures Last(s) < 0xffff
  {
  }

  /** What comes out of the search: with a type 1 structure that begins within the stated length,
      after structures of other types, nothing if its area has fewer than 25 bytes, and otherwise
      the 16 bytes from its offset 8 and the place of the string, if there is one, with the number
      at its offset 7. Without such a structure, nothing. */
  lemma OutcomeMeans(mem: seq<Byte>, start: nat, structures: seq<Structure>, tableLength: nat,
                     info: Option<SystemInfo>, k: nat)
    requires TableFormed(structures) && Outcome(mem, start, structures, tableLength, info)
    requires k <= |structures| && forall i :: 0 <= i < k ==> structures[i].area[0] != 1
    ensures k < |structures| && structures[k].area[0] == 1 && |EncodeAll(structures[..k])| < tableLength ==>
              var area, strings := structures[k].area, structures[k].strings;
              if |area| < 25 then info == None
              else
                && info.Some? && info.value.guid == area[8..24]
                && (info.value.serial.Some? <==> 1 <= area[7] <= if strings == [] then 1 else |strings|)
                && (info.value.serial.Some? ==>
                      var p, t := info.value.serial.value, if strings == [] then [] else strings[area[7] - 1];
                      var before := strings[..if strings == [] then 0 else area[7] - 1];
                      && p == start + |EncodeAll(structures[..k])| + |area| + |Strings(before)|
                      && p + |t| < |mem| && mem[p..p + |t|] == t && mem[p + |t|] == 0)
    ensures |EncodeAll(structures[..k])| >= tableLength || k == |structures| ==> info == None
  {
    hide EncodeAll, WellFormed, Strings;
    if k < |structures| {
      Formed(structures, k);
      if structures[k].area[0] == 1 && |EncodeAll(structures[..k])| < tableLength {
        assert FirstSystem(structures, k) && Reaches(structures, k, tableLength);
        TellsMeans(mem, start + Boundary(structures, k), structures[k], info);
      }
    }
    if |EncodeAll(structures[..k])| >= tableLength || k == |structures| {
      NothingReached(structures, tableLength, k);
    }
  }

  lemma NothingReached(structures: seq<Structure>, tableLength: nat, k: nat)
    requires TableFormed(structures) && k <= |structures|
    requires forall i :: 0 <= i < k ==> structures[i].area[0] != 1
    requires Boundary(structures, k) >= tableLength || k == |structures|
    ensures forall i: nat :: FirstSystem(structures, i) ==> !Reaches(structures, i, tableLength)
  {
    hide Boundary;
    forall i: nat | FirstSystem(structures, i) ensures !Reaches(structures, i, tableLength) {
      if i >= k { BoundaryMonotone(structures, k, i); }
    }
  }

  lemma TellsMeans(mem: seq<Byte>, raw: nat, s: Structure, info: Option<SystemInfo>)
    requires Tells(mem, raw, s, info)
    ensures var area, strings := s.area, s.strings;
            if |area| < 25 then info == None
            else
              && info.Some? && info.value.guid == area[8..24]
              && (info.value.serial.Some? <==> 1 <= area[7] <= if strings == [] then 1 else |strings|)
              && (info.value.serial.Some? ==>
                    var p, t := info.value.serial.value, if strings == [] then [] else strings[area[7] - 1];
                    var before := strings[..if strings == [] then 0 else area[7] - 1];
                    && p == raw + |area| + |Strings(before)|
                    && p + |t| < |mem| && mem[p..p + |t|] == t && mem[p + |t|] == 0)
  {
    hide Strings, StringAt;
    if info.Some? && info.value.serial.Some? {
      StringPlace(raw, s, s.area[7]);
      var p, t := info.value.serial.value, Written(s.strings)[s.area[7] - 1];
      assert mem[p..p + |t| + 1] == t + [0];
      assert mem[p..p + |t|] == mem[p..p + |t| + 1][..|t|] && mem[p + |t|] == mem[p..p + |t| + 1][|t|];
    }
  }

  /** The written form: without strings two NULs, and otherwise each string with a NUL and one more
      at the end. */
  lemma EncodeMeans(area: seq<Byte>, strings: seq<Chars>, t: Chars)
    ensures Encode(Structure(area, [])) == area + [0, 0]
    ensures Encode(Structure(area, [t])) == area + t + [0, 0]
    ensures strings != [] ==>
              Encode(Structure(area, [t] + strings)) == area + t + [0] + Encode(Structure([], strings))
  {
    hide StringSet;
    StringSetMeans(strings, t);
    assert [] + StringSet(strings) == StringSet(strings);
    assert area + t + [0, 0] == area + (t + [0, 0]);
    assert area + t + [0] + StringSet(strings) == area + (t + [0] + StringSet(strings));
  }

  lemma StringSetMeans(strings: seq<Chars>, t: Chars)
    ensures StringSet([]) == [0, 0] && StringSet([t]) == t + [0, 0]
    ensures strings != [] ==> StringSet([t] + strings) == t + [0] + StringSet(strings)
  {
    hide Strings;
    OneString([]);
    OneString(t);
    StringsHead([t] + strings, [0]);
    assert ([t] + strings)[0] == t && ([t] + strings)[1..] == strings;
  }

  lemma OneString(t: Chars)
    ensures Strings([t]) + [0] == t + [0, 0]
  {
    assert Strings([t]) == t + [0] + Strings([]);
  }
}
