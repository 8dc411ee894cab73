/** The ELF self-relocators (gnu-efi/gnuefi/reloc_x86_64.c, gnu-efi/gnuefi/reloc_aarch64.c) as
    transformations of the loaded image. Places in the image are offsets from the load base. */
module Relocation {
  import opened Common

  type Image = seq<Byte>

  // ----- Little-endian words -----

  function Le(s: seq<Byte>): nat {
    if s == [] then 0 else s[0] + 256 * Le(s[1..])
  }

  function Pow256(n: nat): nat {
    if n == 0 then 1 else 256 * Pow256(n - 1)
  }

  function Bytes(v: nat, n: nat): (s: seq<Byte>)
    ensures |s| == n
  {
    if n == 0 then [] else [v % 256] + Bytes(v / 256, n - 1)
  }

  lemma Pow256Of8()
    ensures Pow256(8) == W64
  {
    assert Pow256(4) == 0x1_0000_0000;
  }

  lemma {:induction false} LeBound(s: seq<Byte>)
    ensures Le(s) < Pow256(|s|)
  {
    if s == [] {
    } else {
      LeBound(s[1..]);
    }
  }

  lemma {:induction false} LeBytes(v: nat, n: nat)
    requires v < Pow256(n)
    ensures Le(Bytes(v, n)) == v
  {
    if n == 0 {
    } else {
      LeBytes(v / 256, n - 1);
      assert Bytes(v, n)[1..] == Bytes(v / 256, n - 1);
    }
  }

  lemma {:induction false} LeInjective(s: seq<Byte>, t: seq<Byte>)
    requires |s| == |t| && Le(s) == Le(t)
    ensures s == t
  {
    if s == [] {
    } else {
      LeInjective(s[1..], t[1..]);
      assert s == [s[0]] + s[1..] && t == [t[0]] + t[1..];
    }
  }

  function Word(img: Image, o: nat): Word64
    requires o + 8 <= |img|
  {
    LeBound(img[o..o + 8]);
    Pow256Of8();
    Le(img[o..o + 8])
  }

  function Splice(img: Image, o: nat, b: seq<Byte>): (r: Image)
    requires o + |b| <= |img|
    ensures |r| == |img|
  {
    var front, back := img[..o], img[o + |b|..];
    assert |front| == o && |back| == |img| - (o + |b|);
    front + b + back
  }

  function Put(img: Image, o: nat, v: Word64): (r: Image)
    requires o + 8 <= |img|
    ensures |r| == |img|
  {
    Splice(img, o, Bytes(v, 8))
  }

  lemma PutGet(img: Image, o: nat, v: Word64)
    requires o + 8 <= |img|
    ensures Word(Put(img, o, v), o) == v
  {
    hide Bytes, Le, Pow256;
    assert Put(img, o, v)[o..o + 8] == Bytes(v, 8);
    Pow256Of8();
    LeBytes(v, 8);
  }

  predicate Apart(o: nat, m: nat, p: nat, n: nat) {
    o + m <= p || p + n <= o
  }

  lemma PutSlice(img: Image, o: nat, v: Word64, p: nat, n: nat)
    requires o + 8 <= |img| && p + n <= |img| && Apart(o, 8, p, n)
    ensures Put(img, o, v)[p..p + n] == img[p..p + n]
  {
    hide Bytes, Put, Splice;
    var r := Put(img, o, v);
    PutAround(img, o, v);
    if p + n <= o {
      SliceOfSlice(r, 0, o, p, n);
      SliceOfSlice(img, 0, o, p, n);
    } else {
      SliceOfSlice(r, o + 8, |r|, p, n);
      SliceOfSlice(img, o + 8, |r|, p, n);
    }
  }

  lemma PutAround(img: Image, o: nat, v: Word64)
    requires o + 8 <= |img|
    ensures var r := Put(img, o, v); r[0..o] == img[0..o] && r[o + 8..|r|] == img[o + 8..|r|]
  {
    hide Bytes;
  }

  lemma SliceOfSlice(m: seq<Byte>, a: nat, b: nat, p: nat, n: nat)
    requires a <= p && p + n <= b <= |m|
    ensures m[p..p + n] == m[a..b][p - a..p - a + n]
  {
    var x, y := m[a..b][p - a..p - a + n], m[p..p + n];
    assert forall k :: 0 <= k < n ==> x[k] == y[k];
  }

  lemma PutOther(img: Image, o: nat, v: Word64, p: nat)
    requires o + 8 <= |img| && p + 8 <= |img| && Apart(o, 8, p, 8)
    ensures Word(Put(img, o, v), p) == Word(img, p)
  {
    hide Put, Le;
    PutSlice(img, o, v, p, 8);
  }

  // ----- Relocation entries -----

  datatype Machine = X86_64 | AArch64

  /** R_X86_64_RELATIVE and R_AARCH64_RELATIVE */
  function RelativeType(m: Machine): nat {
    if m == X86_64 then 8 else 1027
  }

  /** What is read of an entry: `Elf64_Rel` or `Elf64_Rela`. */
  function RowSize(m: Machine): nat {
    if m == X86_64 then 16 else 24
  }

  datatype Row = Row(offset: Word64, type': nat, addend: Word64)
  {
    predicate Relative(m: Machine) { type' == RelativeType(m) }
    predicate Fits(m: Machine, size: nat) { Relative(m) ==> offset + 8 <= size }
  }

  function RowAt(m: Machine, img: Image, p: nat): Row
    requires p + RowSize(m) <= |img|
  {
    Row(Word(img, p), Word(img, p + 8) % 0x1_0000_0000, if m == X86_64 then 0 else Word(img, p + 16))
  }

  function NewWord(m: Machine, w: Word64, addend: Word64, base: Word64): Word64 {
    if m == X86_64 then (w + base) % W64 else (base + addend) % W64
  }

  function Patch(m: Machine, img: Image, base: Word64, r: Row): (i: Image)
    requires r.Fits(m, |img|)
    ensures |i| == |img|
  {
    if r.Relative(m) then Put(img, r.offset, NewWord(m, Word(img, r.offset), r.addend, base)) else img
  }

  /** A word is eight bytes, lowest first. */
  lemma WordMeans(img: Image, o: nat)
    requires o + 8 <= |img|
    ensures Word(img, o) == (img[o] as int) + 0x100 * (img[o + 1] as int) + 0x1_0000 * (img[o + 2] as int)
              + 0x100_0000 * (img[o + 3] as int) + 0x1_0000_0000 * (img[o + 4] as int)
              + 0x100_0000_0000 * (img[o + 5] as int) + 0x1_0000_0000_0000 * (img[o + 6] as int)
              + 0x100_0000_0000_0000 * (img[o + 7] as int)
  {
    hide Le;
    var s := img[o..o + 8];
    assert s[0] == img[o] && s[1] == img[o + 1] && s[2] == img[o + 2] && s[3] == img[o + 3];
    assert s[4] == img[o + 4] && s[5] == img[o + 5] && s[6] == img[o + 6] && s[7] == img[o + 7];
    LeStep(s);
    LeStep(s[1..]);
    LeStep(s[2..]);
    LeStep(s[3..]);
    LeStep(s[4..]);
    LeStep(s[5..]);
    LeStep(s[6..]);
    LeStep(s[7..]);
    LeNothing(s[8..]);
    Tails(s);
  }

  lemma LeStep(s: seq<Byte>)
    requires s != []
    ensures Le(s) == s[0] + 0x100 * Le(s[1..])
  {
  }

  lemma LeNothing(s: seq<Byte>)
    requires s == []
    ensures Le(s) == 0
  {
  }

  lemma Tails(s: seq<Byte>)
    requires |s| == 8
    ensures s[1..][1..] == s[2..] && s[2..][1..] == s[3..] && s[3..][1..] == s[4..] && s[4..][1..] == s[5..]
    ensures s[5..][1..] == s[6..] && s[6..][1..] == s[7..] && s[7..][1..] == s[8..]
  {
  }

  /** What one entry does. On x86_64, type 8 adds the base to the word at the offset; on AArch64,
      type 1027 writes the sum of the base and the addend there. The type is the low half of the
      second word, and everything else does nothing. */
  lemma EntryMeans(img: Image, base: Word64, p: nat)
    ensures p + 16 <= |img| && Word(img, p + 8) % 0x1_0000_0000 != 8 ==>
              RowAt(X86_64, img, p).Fits(X86_64, |img|) && Patch(X86_64, img, base, RowAt(X86_64, img, p)) == img
    ensures p + 16 <= |img| && Word(img, p + 8) % 0x1_0000_0000 == 8 && Word(img, p) + 8 <= |img| ==>
              var o := Word(img, p);
              && RowAt(X86_64, img, p).Fits(X86_64, |img|)
              && var r := Patch(X86_64, img, base, RowAt(X86_64, img, p));
                 && r[..o] == img[..o] && r[o + 8..] == img[o + 8..]
                 && Word(r, o) == (Word(img, o) + base) % 0x1_0000_0000_0000_0000
    ensures p + 24 <= |img| && Word(img, p + 8) % 0x1_0000_0000 != 1027 ==>
              RowAt(AArch64, img, p).Fits(AArch64, |img|) && Patch(AArch64, img, base, RowAt(AArch64, img, p)) == img
    ensures p + 24 <= |img| && Word(img, p + 8) % 0x1_0000_0000 == 1027 && Word(img, p) + 8 <= |img| ==>
              var o := Word(img, p);
              && RowAt(AArch64, img, p).Fits(AArch64, |img|)
              && var r := Patch(AArch64, img, base, RowAt(AArch64, img, p));
                 && r[..o] == img[..o] && r[o + 8..] == img[o + 8..]
                 && Word(r, o) == (base + Word(img, p + 16)) % 0x1_0000_0000_0000_0000
  {
    hide Word, Put;
    if p + 16 <= |img| && Word(img, p) + 8 <= |img| {
      var o := Word(img, p);
      PutMeans(img, o, (Word(img, o) + base) % W64);
      if p + 24 <= |img| { PutMeans(img, o, (base + Word(img, p + 16)) % W64); }
    }
  }

  lemma PutMeans(img: Image, o: nat, v: Word64)
    requires o + 8 <= |img|
    ensures var r := Put(img, o, v); Word(r, o) == v && r[..o] == img[..o] && r[o + 8..] == img[o + 8..]
  {
    hide Bytes, Word;
    PutGet(img, o, v);
  }

  // ----- The loop over the table, entry by entry as the image changes -----

  ghost predicate InBounds(m: Machine, img: Image, base: Word64, p: nat, relsz: int, relent: int)
    requires relent > 0
    decreases relsz
  {
    relsz > 0 ==>
      && p + RowSize(m) <= |img|
      && RowAt(m, img, p).Fits(m, |img|)
      && InBounds(m, Patch(m, img, base, RowAt(m, img, p)), base, p + relent, relsz - relent, relent)
  }

  ghost function Run(m: Machine, img: Image, base: Word64, p: nat, relsz: int, relent: int): Image
    requires relent > 0 && InBounds(m, img, base, p, relsz, relent)
    decreases relsz
  {
    if relsz <= 0 then img
    else Run(m, Patch(m, img, base, RowAt(m, img, p)), base, p + relent, relsz - relent, relent)
  }

  // ----- The table as it is at the start -----

  ghost predicate TableIn(m: Machine, size: nat, p: nat, relsz: int, relent: int)
    requires relent > 0
    decreases relsz
  {
    relsz > 0 ==> p + RowSize(m) <= size && TableIn(m, size, p + relent, relsz - relent, relent)
  }

  ghost function Rows(m: Machine, img: Image, p: nat, relsz: int, relent: int): seq<Row>
    requires relent > 0 && TableIn(m, |img|, p, relsz, relent)
    decreases relsz
  {
    if relsz <= 0 then [] else [RowAt(m, img, p)] + Rows(m, img, p + relent, relsz - relent, relent)
  }

  /** There are as many entries as the size of the table needs. */
  lemma {:induction false} RowsCount(m: Machine, img: Image, p: nat, relsz: int, relent: int)
    requires relent > 0 && TableIn(m, |img|, p, relsz, relent)
    ensures var n := |Rows(m, img, p, relsz, relent)|;
            if relsz <= 0 then n == 0 else relsz <= n * relent < relsz + relent
    decreases relsz
  {
    hide RowAt, RowSize;
    if relsz <= 0 {
    } else {
      RowsCount(m, img, p + relent, relsz - relent, relent);
      OneMoreTimes(|Rows(m, img, p + relent, relsz - relent, relent)|, relent);
    }
  }

  lemma OneMoreTimes(n: nat, relent: int)
    ensures (n + 1) * relent == n * relent + relent
  {
  }

  /** They are one after the other. */
  lemma {:induction false} RowsMean(m: Machine, img: Image, p: nat, relsz: int, relent: int, i: nat)
    requires relent > 0 && TableIn(m, |img|, p, relsz, relent) && i < |Rows(m, img, p, relsz, relent)|
    ensures p + i * relent + RowSize(m) <= |img| && Rows(m, img, p, relsz, relent)[i] == RowAt(m, img, p + i * relent)
    decreases relsz
  {
    hide RowAt, RowSize;
    if i == 0 {
    } else {
      RowsMean(m, img, p + relent, relsz - relent, relent, i - 1);
      OneMoreTimes(i - 1, relent);
    }
  }

  /** The word at `t` meets no entry of the table. */
  ghost predicate OffTable(m: Machine, t: nat, p: nat, relsz: int, relent: int)
    requires relent > 0
    decreases relsz
  {
    relsz > 0 ==> Apart(t, 8, p, RowSize(m)) && OffTable(m, t, p + relent, relsz - relent, relent)
  }

  ghost predicate AllFit(m: Machine, size: nat, rows: seq<Row>) {
    forall i :: 0 <= i < |rows| ==> rows[i].Fits(m, size)
  }

  ghost predicate AllOffTable(m: Machine, rows: seq<Row>, p: nat, relsz: int, relent: int)
    requires relent > 0
  {
    forall i :: 0 <= i < |rows| && rows[i].Relative(m) ==> OffTable(m, rows[i].offset, p, relsz, relent)
  }

  lemma RowStable(m: Machine, img: Image, t: nat, v: Word64, p: nat)
    requires t + 8 <= |img| && p + RowSize(m) <= |img| && Apart(t, 8, p, RowSize(m))
    ensures RowAt(m, Put(img, t, v), p) == RowAt(m, img, p)
  {
    hide Word, Put;
    PutOther(img, t, v, p);
    PutOther(img, t, v, p + 8);
    if m == AArch64 { PutOther(img, t, v, p + 16); }
  }

  lemma {:induction false} RowsStable(m: Machine, img: Image, t: nat, v: Word64, p: nat, relsz: int, relent: int)
    requires relent > 0 && TableIn(m, |img|, p, relsz, relent) && t + 8 <= |img| && OffTable(m, t, p, relsz, relent)
    ensures Rows(m, Put(img, t, v), p, relsz, relent) == Rows(m, img, p, relsz, relent)
    decreases relsz
  {
    hide Put, RowAt, Apart;
    if relsz <= 0 {
    } else {
      RowStable(m, img, t, v, p);
      RowsStable(m, img, t, v, p + relent, relsz - relent, relent);
    }
  }

  ghost function ApplyRows(m: Machine, img: Image, base: Word64, rows: seq<Row>): (i: Image)
    requires AllFit(m, |img|, rows)
    ensures |i| == |img|
    decreases |rows|
  {
    if rows == [] then img else ApplyRows(m, Patch(m, img, base, rows[0]), base, rows[1..])
  }

  /** When no target meets the table, the loop stays in bounds and applies the entries that the
      table holds at the start. */
  lemma {:induction false} RunApplies(m: Machine, img: Image, base: Word64, p: nat, relsz: int, relent: int)
    requires relent > 0 && TableIn(m, |img|, p, relsz, relent)
    requires var rows := Rows(m, img, p, relsz, relent);
             AllFit(m, |img|, rows) && AllOffTable(m, rows, p, relsz, relent)
    ensures InBounds(m, img, base, p, relsz, relent)
    ensures Run(m, img, base, p, relsz, relent) == ApplyRows(m, img, base, Rows(m, img, p, relsz, relent))
    decreases relsz
  {
    hide RowAt, Put, NewWord;
    if relsz <= 0 {
    } else {
      var rows := Rows(m, img, p, relsz, relent);
      var r := rows[0];
      var rest := Rows(m, img, p + relent, relsz - relent, relent);
      assert rows == [r] + rest && rows[1..] == rest;
      assert r.Fits(m, |img|);
      var img' := Patch(m, img, base, r);
      if r.Relative(m) {
        assert OffTable(m, r.offset, p, relsz, relent);
        var w := NewWord(m, Word(img, r.offset), r.addend, base);
        RowsStable(m, img, r.offset, w, p + relent, relsz - relent, relent);
      }
      Rest(m, |img|, rows, rest, p, relsz, relent);
      RunApplies(m, img', base, p + relent, relsz - relent, relent);
    }
  }

  lemma Rest(m: Machine, size: nat, rows: seq<Row>, rest: seq<Row>, p: nat, relsz: int, relent: int)
    requires relent > 0 && relsz > 0 && |rows| > 0 && rest == rows[1..]
    requires AllFit(m, size, rows) && AllOffTable(m, rows, p, relsz, relent)
    ensures AllFit(m, size, rest) && AllOffTable(m, rest, p + relent, relsz - relent, relent)
  {
    forall i | 0 <= i < |rest|
      ensures rest[i].Fits(m, size)
      ensures rest[i].Relative(m) ==> OffTable(m, rest[i].offset, p + relent, relsz - relent, relent)
    {
      assert rest[i] == rows[i + 1];
    }
  }

  // ----- What applying the entries does -----

  /** The word at `t` meets no target. */
  ghost predicate OffTargets(m: Machine, t: nat, n: nat, rows: seq<Row>) {
    forall i :: 0 <= i < |rows| && rows[i].Relative(m) ==> Apart(t, n, rows[i].offset, 8)
  }

  ghost predicate Disjoint(m: Machine, rows: seq<Row>) {
    forall i, j :: 0 <= i < j < |rows| && rows[i].Relative(m) && rows[j].Relative(m) ==>
      Apart(rows[i].offset, 8, rows[j].offset, 8)
  }

  /** What no entry names does not change. */
  lemma {:induction false} ApplyElsewhere(m: Machine, img: Image, base: Word64, rows: seq<Row>, t: nat, n: nat)
    requires AllFit(m, |img|, rows) && t + n <= |img| && OffTargets(m, t, n, rows)
    ensures ApplyRows(m, img, base, rows)[t..t + n] == img[t..t + n]
    decreases |rows|
  {
    hide Put, NewWord, Apart;
    if rows == [] {
    } else {
      var r := rows[0];
      if r.Relative(m) {
        ApartSym(t, n, r.offset, 8);
        PutSlice(img, r.offset, NewWord(m, Word(img, r.offset), r.addend, base), t, n);
      }
      ApplyElsewhere(m, Patch(m, img, base, r), base, rows[1..], t, n);
    }
  }

  lemma ApartSym(o: nat, m: nat, p: nat, n: nat)
    ensures Apart(o, m, p, n) == Apart(p, n, o, m)
  {
  }

  lemma DisjointTail(m: Machine, rows: seq<Row>)
    requires rows != [] && Disjoint(m, rows)
    ensures Disjoint(m, rows[1..])
    ensures rows[0].Relative(m) ==> OffTargets(m, rows[0].offset, 8, rows[1..])
  {
    hide Apart;
    var rest := rows[1..];
    assert forall i :: 0 <= i < |rest| ==> rest[i] == rows[i + 1];
  }

  /** Every named word gets its new value, computed from what it was before the first entry. */
  lemma {:induction false} ApplyTarget(m: Machine, img: Image, base: Word64, rows: seq<Row>, k: nat)
    requires AllFit(m, |img|, rows) && Disjoint(m, rows) && k < |rows| && rows[k].Relative(m)
    ensures rows[k].offset + 8 <= |img|
    ensures Word(ApplyRows(m, img, base, rows), rows[k].offset)
            == NewWord(m, Word(img, rows[k].offset), rows[k].addend, base)
    decreases |rows|
  {
    hide Put, Word, NewWord, Apart;
    assert rows[k].Fits(m, |img|);
    var r, t := rows[0], rows[k].offset;
    var img' := Patch(m, img, base, r);
    DisjointTail(m, rows);
    if k == 0 {
      PutGet(img, t, NewWord(m, Word(img, t), r.addend, base));
      ApplyElsewhere(m, img', base, rows[1..], t, 8);
      WordSlice(ApplyRows(m, img', base, rows[1..]), img', t);
    } else {
      assert rows[1..][k - 1] == rows[k];
      if r.Relative(m) {
        assert Apart(rows[0].offset, 8, rows[k].offset, 8);
        PutOther(img, r.offset, NewWord(m, Word(img, r.offset), r.addend, base), t);
      }
      ApplyTarget(m, img', base, rows[1..], k - 1);
    }
  }

  lemma WordSlice(a: Image, b: Image, t: nat)
    requires t + 8 <= |a| && t + 8 <= |b| && a[t..t + 8] == b[t..t + 8]
    ensures Word(a, t) == Word(b, t)
  {
    hide Le;
  }

  // ----- The image shifted by the load base -----

  /** Every named word is the original one plus the base, and nothing else has changed. */
  ghost predicate IsShifted(m: Machine, img: Image, img': Image, base: Word64, rows: seq<Row>)
    requires AllFit(m, |img|, rows)
  {
    && |img'| == |img|
    && (forall i :: 0 <= i < |rows| && rows[i].Relative(m) ==>
          rows[i].Fits(m, |img|) && Word(img', rows[i].offset) == (Word(img, rows[i].offset) + base) % W64)
    && (forall o: nat :: o < |img| && OffTargets(m, o, 1, rows) ==> img'[o] == img[o])
  }

  /** There is only one such image, whichever form of table names the words. */
  lemma ShiftedUnique(m: Machine, m': Machine, img: Image, a: Image, b: Image, base: Word64,
                      rows: seq<Row>, rows': seq<Row>)
    requires SameTargets(m, rows, m', rows') && AllFit(m, |img|, rows) && AllFit(m', |img|, rows')
    requires IsShifted(m, img, a, base, rows) && IsShifted(m', img, b, base, rows')
    ensures a == b
  {
    hide Word;
    forall o: nat | o < |img| ensures a[o] == b[o] {
      if OffTargets(m, o, 1, rows) {
        assert OffTargets(m', o, 1, rows');
      } else {
        var i :| 0 <= i < |rows| && rows[i].Relative(m) && !Apart(o, 1, rows[i].offset, 8);
        assert rows'[i].Relative(m') && rows'[i].offset == rows[i].offset && rows[i].Fits(m, |img|);
        SameByte(a, b, rows[i].offset, o);
      }
    }
  }

  lemma SameByte(a: Image, b: Image, t: nat, o: nat)
    requires |a| == |b| && t + 8 <= |a| && Word(a, t) == Word(b, t) && t <= o < t + 8
    ensures a[o] == b[o]
  {
    hide Le;
    LeInjective(a[t..t + 8], b[t..t + 8]);
    assert a[t..t + 8][o - t] == b[t..t + 8][o - t];
  }

  /** Two tables, each with its machine's entry types, that name the same words. */
  ghost predicate SameTargets(m: Machine, rows: seq<Row>, m': Machine, rows': seq<Row>) {
    && |rows| == |rows'|
    && forall i :: 0 <= i < |rows| ==>
         (rows[i].Relative(m) <==> rows'[i].Relative(m')) && rows[i].offset == rows'[i].offset
  }

  ghost predicate HoldsAddends(m: Machine, img: Image, rows: seq<Row>)
    requires AllFit(m, |img|, rows)
  {
    forall i :: 0 <= i < |rows| && rows[i].Relative(m) ==>
      rows[i].Fits(m, |img|) && Word(img, rows[i].offset) == rows[i].addend
  }

  lemma ApplyBytes(m: Machine, img: Image, base: Word64, rows: seq<Row>)
    requires AllFit(m, |img|, rows)
    ensures forall o: nat :: o < |img| && OffTargets(m, o, 1, rows) ==> ApplyRows(m, img, base, rows)[o] == img[o]
  {
    hide ApplyRows, OffTargets;
    forall o: nat | o < |img| && OffTargets(m, o, 1, rows) ensures ApplyRows(m, img, base, rows)[o] == img[o] {
      ApplyElsewhere(m, img, base, rows, o, 1);
      var img' := ApplyRows(m, img, base, rows);
      assert img[o..o + 1][0] == img[o] && img'[o..o + 1][0] == img'[o];
    }
  }

  /** Adding in place shifts the image. */
  lemma AddShifts(img: Image, base: Word64, rows: seq<Row>)
    requires AllFit(X86_64, |img|, rows) && Disjoint(X86_64, rows)
    ensures IsShifted(X86_64, img, ApplyRows(X86_64, img, base, rows), base, rows)
  {
    hide ApplyRows, Word, OffTargets, Disjoint;
    ApplyBytes(X86_64, img, base, rows);
    forall i | 0 <= i < |rows| && rows[i].Relative(X86_64)
      ensures rows[i].Fits(X86_64, |img|) &&
              Word(ApplyRows(X86_64, img, base, rows), rows[i].offset) == (Word(img, rows[i].offset) + base) % W64
    {
      ApplyTarget(X86_64, img, base, rows, i);
    }
  }

  lemma SumsDiffer(w: Word64, a: Word64, base: Word64)
    ensures (base + a) % W64 == (w + base) % W64 <==> w == a
  {
  }

  /** Overwriting shifts the image exactly when the named words hold their addends. */
  lemma OverwriteShiftsIff(img: Image, base: Word64, rows: seq<Row>)
    requires AllFit(AArch64, |img|, rows) && Disjoint(AArch64, rows)
    ensures IsShifted(AArch64, img, ApplyRows(AArch64, img, base, rows), base, rows)
            <==> HoldsAddends(AArch64, img, rows)
  {
    hide ApplyRows, Word, OffTargets, Disjoint;
    ApplyBytes(AArch64, img, base, rows);
    forall i | 0 <= i < |rows| && rows[i].Relative(AArch64)
      ensures rows[i].Fits(AArch64, |img|) &&
              (Word(ApplyRows(AArch64, img, base, rows), rows[i].offset) == (Word(img, rows[i].offset) + base) % W64
               <==> Word(img, rows[i].offset) == rows[i].addend)
    {
      ApplyTarget(AArch64, img, base, rows, i);
      SumsDiffer(Word(img, rows[i].offset), rows[i].addend, base);
    }
  }

  /** An image whose one named word does not hold its addend, and what overwriting makes of it. */
  lemma OverwriteNotShifted()
    ensures var img, rows := Bytes(0, 8), [Row(0, 1027, 1)];
            && AllFit(AArch64, |img|, rows) && Disjoint(AArch64, rows)
            && !IsShifted(AArch64, img, ApplyRows(AArch64, img, 0, rows), 0, rows)
  {
    hide ApplyRows, IsShifted, Le;
    var img, rows := Bytes(0, 8), [Row(0, 1027, 1)];
    Pow256Of8();
    LeBytes(0, 8);
    assert img[0..8] == img;
    OverwriteShiftsIff(img, 0, rows);
    assert rows[0].Relative(AArch64);
  }

  /** Both forms give the same image exactly when the named words hold their addends. */
  lemma FormsAgreeIff(img: Image, base: Word64, rows: seq<Row>, rows': seq<Row>)
    requires SameTargets(X86_64, rows, AArch64, rows')
    requires AllFit(X86_64, |img|, rows) && Disjoint(X86_64, rows)
    ensures AllFit(AArch64, |img|, rows') && Disjoint(AArch64, rows')
    ensures ApplyRows(X86_64, img, base, rows) == ApplyRows(AArch64, img, base, rows')
            <==> HoldsAddends(AArch64, img, rows')
  {
    hide ApplyRows, HoldsAddends, IsShifted;
    SameConditions(|img|, rows, rows');
    AddShifts(img, base, rows);
    OverwriteShiftsIff(img, base, rows');
    if HoldsAddends(AArch64, img, rows') {
      ShiftedUnique(X86_64, AArch64, img, ApplyRows(X86_64, img, base, rows), ApplyRows(AArch64, img, base, rows'),
                    base, rows, rows');
    } else if ApplyRows(X86_64, img, base, rows) == ApplyRows(AArch64, img, base, rows') {
      ShiftedEither(img, ApplyRows(X86_64, img, base, rows), base, rows, rows');
      assert false;
    }
  }

  lemma SameConditions(size: nat, rows: seq<Row>, rows': seq<Row>)
    requires SameTargets(X86_64, rows, AArch64, rows')
    requires AllFit(X86_64, size, rows) && Disjoint(X86_64, rows)
    ensures AllFit(AArch64, size, rows') && Disjoint(AArch64, rows')
  {
    forall i | 0 <= i < |rows'| ensures rows'[i].Fits(AArch64, size) {
      assert rows[i].Fits(X86_64, size);
    }
  }

  lemma ShiftedEither(img: Image, a: Image, base: Word64, rows: seq<Row>, rows': seq<Row>)
    requires SameTargets(X86_64, rows, AArch64, rows') && AllFit(X86_64, |img|, rows) && AllFit(AArch64, |img|, rows')
    requires IsShifted(X86_64, img, a, base, rows)
    ensures IsShifted(AArch64, img, a, base, rows')
  {
    hide Word;
    forall i | 0 <= i < |rows'| && rows'[i].Relative(AArch64)
      ensures rows'[i].Fits(AArch64, |img|) && Word(a, rows'[i].offset) == (Word(img, rows'[i].offset) + base) % W64
    {
      assert rows[i].Relative(X86_64) && rows[i].Fits(X86_64, |img|);
    }
    forall o: nat | o < |img| && OffTargets(AArch64, o, 1, rows') ensures a[o] == img[o] {
      assert OffTargets(X86_64, o, 1, rows);
    }
  }

  // ----- What the loop leaves in memory -----

  /** The table and the words it names lie in the image, apart from each other. */
  ghost predicate Proper(m: Machine, img: Image, p: nat, relsz: int, relent: int)
    requires relent > 0
  {
    && TableIn(m, |img|, p, relsz, relent)
    && var rows := Rows(m, img, p, relsz, relent);
       AllFit(m, |img|, rows) && AllOffTable(m, rows, p, relsz, relent) && Disjoint(m, rows)
  }

  /** Run over a proper table, the form that adds in place leaves the image shifted by the base,
      and the form that overwrites does so exactly when the named words hold their addends. */
  lemma RunShiftsIff(m: Machine, img: Image, base: Word64, p: nat, relsz: int, relent: int)
    requires relent > 0 && Proper(m, img, p, relsz, relent)
    ensures InBounds(m, img, base, p, relsz, relent)
    ensures var rows := Rows(m, img, p, relsz, relent);
            IsShifted(m, img, Run(m, img, base, p, relsz, relent), base, rows)
            <==> m == X86_64 || HoldsAddends(m, img, rows)
  {
    hide InBounds, Run, ApplyRows, TableIn, Rows, Disjoint, IsShifted, HoldsAddends;
    var rows := Rows(m, img, p, relsz, relent);
    RunApplies(m, img, base, p, relsz, relent);
    match m
    case X86_64 => AddShifts(img, base, rows);
    case AArch64 => OverwriteShiftsIff(img, base, rows);
  }

  // ----- The dynamic section -----

  datatype Dyn = Dyn(tag: nat, val: Word64)

  const DT_NULL: nat := 0
  const DT_RELA: nat := 7
  const DT_RELASZ: nat := 8
  const DT_RELAENT: nat := 9

  /** The last value of a tag, or the default. */
  function LastOf(dyn: seq<Dyn>, tag: nat, default: Word64): Word64 {
    if dyn == [] then default
    else if dyn[|dyn| - 1].tag == tag then dyn[|dyn| - 1].val
    else LastOf(dyn[..|dyn| - 1], tag, default)
  }

  function RelaSize(dyn: seq<Dyn>): int { AsInt64(LastOf(dyn, DT_RELASZ, 0)) }
  function RelaEntrySize(dyn: seq<Dyn>): int { AsInt64(LastOf(dyn, DT_RELAENT, 0)) }

  /** The address of the table; no table gives the null pointer. */
  function TableAddress(dyn: seq<Dyn>, base: Word64): Word64 {
    (LastOf(dyn, DT_RELA, (W64 - base) % W64) + base) % W64
  }

  lemma LastSnoc(dyn: seq<Dyn>, i: nat, tag: nat, default: Word64)
    requires i < |dyn|
    ensures LastOf(dyn[..i + 1], tag, default)
            == if dyn[i].tag == tag then dyn[i].val else LastOf(dyn[..i], tag, default)
  {
    assert dyn[..i + 1][..i] == dyn[..i];
  }

  /** The value that stands last under a tag. */
  lemma {:induction false} LastMeans(dyn: seq<Dyn>, tag: nat, default: Word64, i: nat)
    ensures (forall j :: 0 <= j < |dyn| ==> dyn[j].tag != tag) ==> LastOf(dyn, tag, default) == default
    ensures i < |dyn| && dyn[i].tag == tag && (forall j :: i < j < |dyn| ==> dyn[j].tag != tag) ==>
              LastOf(dyn, tag, default) == dyn[i].val
  {
    if dyn == [] {
    } else {
      LastMeans(dyn[..|dyn| - 1], tag, default, i);
    }
  }

  /** The table is at the sum of what stands under tag 7 and the base; without the tag, nowhere. */
  lemma TableAddressMeans(dyn: seq<Dyn>, base: Word64)
    ensures TableAddress(dyn, base)
            == if forall j :: 0 <= j < |dyn| ==> dyn[j].tag != 7 then 0
               else (LastOf(dyn, 7, 0) + base) % 0x1_0000_0000_0000_0000
  {
    hide LastOf;
    LastMeans(dyn, 7, (W64 - base) % W64, 0);
    SomeLast(dyn, 7, (W64 - base) % W64, 0);
  }

  lemma {:induction false} SomeLast(dyn: seq<Dyn>, tag: nat, d: Word64, d': Word64)
    ensures (forall j :: 0 <= j < |dyn| ==> dyn[j].tag != tag) || LastOf(dyn, tag, d) == LastOf(dyn, tag, d')
  {
    if dyn == [] {
    } else {
      SomeLast(dyn[..|dyn| - 1], tag, d, d');
    }
  }

  method Scan(dyn: seq<Dyn>, base: Word64, ghost n: nat) returns (rel: Word64, relsz: int, relent: int)
    requires n < |dyn| && dyn[n].tag == 0 && forall i :: 0 <= i < n ==> dyn[i].tag != 0
    ensures rel == TableAddress(dyn[..n], base)
    ensures relsz == AsInt64(LastOf(dyn[..n], 8, 0))
    ensures relent == AsInt64(LastOf(dyn[..n], 9, 0))
  {
    hide LastOf, AsInt64;
    rel, relsz, relent := 0, 0, 0;
    var i := 0;
    NoEntries(dyn[..0], base);
    while dyn[i].tag != DT_NULL
      invariant i <= n
      invariant rel == TableAddress(dyn[..i], base)
      invariant relsz == RelaSize(dyn[..i])
      invariant relent == RelaEntrySize(dyn[..i])
      decreases n - i
    {
      LastSnoc(dyn, i, DT_RELA, (W64 - base) % W64);
      LastSnoc(dyn, i, DT_RELASZ, 0);
      LastSnoc(dyn, i, DT_RELAENT, 0);
      if dyn[i].tag == DT_RELA {
        rel := (dyn[i].val + base) % W64;
      } else if dyn[i].tag == DT_RELASZ {
        relsz := AsInt64(dyn[i].val);
      } else if dyn[i].tag == DT_RELAENT {
        relent := AsInt64(dyn[i].val);
      }
      i := i + 1;
    }
  }

  lemma NoEntries(dyn: seq<Dyn>, base: Word64)
    requires dyn == []
    ensures TableAddress(dyn, base) == 0
    ensures RelaSize(dyn) == 0 && RelaEntrySize(dyn) == 0
  {
  }

  // ----- The relocators -----

  datatype Status = Success | LoadError

  method ReadWord(a: array<Byte>, o: nat) returns (w: Word64)
    requires o + 8 <= a.Length
    ensures w == Word(a[..], o)
  {
    var acc: nat, i: nat := 0, 8;
    while i > 0
      invariant i <= 8 && acc == Le(a[o + i..o + 8])
    {
      i := i - 1;
      assert a[o + i..o + 8] == [a[o + i]] + a[o + i + 1..o + 8];
      acc := a[o + i] + 256 * acc;
    }
    assert a[o..o + 8] == a[..][o..o + 8];
    assert acc == Word(a[..], o);
    w := acc;
  }

  lemma NextByte(v: nat, n: nat)
    requires n > 0
    ensures Bytes(v, n) == [v % 256] + Bytes(v / 256, n - 1)
  {
  }

  method WriteWord(a: array<Byte>, o: nat, v: Word64)
    requires o + 8 <= a.Length
    modifies a
    ensures a[..] == Put(old(a[..]), o, v)
  {
    hide Bytes;
    var rest: nat := v;
    for i := 0 to 8
      invariant a[..o] == old(a[..o]) && a[o + 8..] == old(a[o + 8..])
      invariant a[o..o + i] + Bytes(rest, 8 - i) == Bytes(v, 8)
    {
      NextByte(rest, 8 - i);
      ghost var done := a[o..o + i];
      a[o + i] := rest % 256;
      assert a[o..o + i + 1] == done + [rest % 256];
      Regroup(done, rest % 256, Bytes(rest / 256, 7 - i));
      rest := rest / 256;
    }
    assert a[o..o + 8] == Bytes(v, 8);
    Parts(a[..], o);
  }

  lemma Regroup(done: seq<Byte>, b: Byte, rest: seq<Byte>)
    ensures done + ([b] + rest) == (done + [b]) + rest
  {
  }

  lemma Parts(img: Image, o: nat)
    requires o + 8 <= |img|
    ensures img == img[..o] + img[o..o + 8] + img[o + 8..]
  {
  }

  /** The two forms of relocation: the x86_64 one adds in place, the AArch64 one overwrites. */
  method PatchEntry(m: Machine, a: array<Byte>, base: Word64, p: nat)
    requires p + RowSize(m) <= a.Length && RowAt(m, a[..], p).Fits(m, a.Length)
    modifies a
    ensures a[..] == Patch(m, old(a[..]), base, RowAt(m, old(a[..]), p))
  {
    hide Word, Put;
    var offset := ReadWord(a, p);
    var info := ReadWord(a, p + 8);
    if info % 0x1_0000_0000 == RelativeType(m) {
      match m {
        case X86_64 =>
          var w := ReadWord(a, offset);
          WriteWord(a, offset, (w + base) % W64);
        case AArch64 =>
          var addend := ReadWord(a, p + 16);
          WriteWord(a, offset, (base + addend) % W64);
      }
    }
  }

  /** The table is where its tag says, counted from the load base. */
  lemma TablePlace(dyn: seq<Dyn>, base: Word64)
    requires TableAddress(dyn, base) != 0
    ensures (TableAddress(dyn, base) - base) % W64 == LastOf(dyn, DT_RELA, 0)
  {
    hide LastOf;
    LastDefault(dyn, DT_RELA, (W64 - base) % W64, 0);
    var v := LastOf(dyn, DT_RELA, (W64 - base) % W64);
    assert ((v + base) % W64 - base) % W64 == v;
  }

  lemma {:induction false} LastDefault(dyn: seq<Dyn>, tag: nat, d: Word64, d': Word64)
    ensures LastOf(dyn, tag, d) == LastOf(dyn, tag, d') || (LastOf(dyn, tag, d) == d && LastOf(dyn, tag, d') == d')
  {
    if dyn == [] {
    } else {
      LastDefault(dyn[..|dyn| - 1], tag, d, d');
    }
  }

  /** `_relocate`, for an image loaded at `base` whose table, if it is gone through, has entries of
      a positive size and lies, like the words it names, inside the image. */
  method Relocate(m: Machine, a: array<Byte>, base: Word64, dyn: seq<Dyn>, ghost n: nat) returns (status: Status)
    requires n < |dyn| && dyn[n].tag == 0 && forall i :: 0 <= i < n ==> dyn[i].tag != 0
    requires var d := dyn[..n];
             var relsz, relent := AsInt64(LastOf(d, 8, 0)), AsInt64(LastOf(d, 9, 0));
             TableAddress(d, base) != 0 && relent != 0 && relsz > 0 ==>
               relent > 0 && InBounds(m, a[..], base, LastOf(d, 7, 0), relsz, relent)
    modifies a
    ensures var d := dyn[..n];
            status == LoadError <==> (TableAddress(d, base) == 0) != (LastOf(d, 9, 0) == 0)
    ensures var d := dyn[..n];
            var relsz, relent := AsInt64(LastOf(d, 8, 0)), AsInt64(LastOf(d, 9, 0));
            a[..] == if TableAddress(d, base) != 0 && relent != 0 && relsz > 0
                     then Run(m, old(a[..]), base, LastOf(d, 7, 0), relsz, relent) else old(a[..])
  {
    hide InBounds, Run, LastOf, TableAddress;
    var rel, relsz, relent := Scan(dyn, base, n);
    SignedZero(LastOf(dyn[..n], DT_RELAENT, 0));
    if rel == 0 && relent == 0 {
      return Success;
    }
    if rel == 0 || relent == 0 {
      return LoadError;
    }
    TablePlace(dyn[..n], base);
    ApplyTable(m, a, base, (rel - base) % W64, relsz, relent);
    status := Success;
  }

  lemma SignedZero(w: Word64)
    ensures AsInt64(w) == 0 <==> w == 0
  {
  }

  /** The loop over the table. */
  method ApplyTable(m: Machine, a: array<Byte>, base: Word64, rel: nat, relsz: int, relent: int)
    requires relsz > 0 ==> relent > 0 && InBounds(m, a[..], base, rel, relsz, relent)
    modifies a
    ensures a[..] == if relsz > 0 then Run(m, old(a[..]), base, rel, relsz, relent) else old(a[..])
  {
    hide Patch, RowAt;
    var p: nat, left := rel, relsz;
    while left > 0
      invariant relsz <= 0 ==> left == relsz && a[..] == old(a[..])
      invariant relsz > 0 ==> InBounds(m, a[..], base, p, left, relent)
      invariant relsz > 0 ==> Run(m, a[..], base, p, left, relent) == Run(m, old(a[..]), base, rel, relsz, relent)
    {
      PatchEntry(m, a, base, p);
      p := p + relent;
      left := left - relent;
    }
  }
}
