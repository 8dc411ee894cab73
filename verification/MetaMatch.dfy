/** The wildcard matcher of gnu-efi/lib/str.c. */
module MetaMatching {
  import opened CText

  /** One unit of a pattern, each of which consumes one piece of the string. */
  datatype Atom = Star | AnyOne | Set(body: Text) | Literal(c: Unit)

  /** Index of the first `]` at or after `q`, or `|p|` when there is none. */
  function CloseOf(p: Text, q: nat): (k: nat)
    requires q <= |p|
    ensures q <= k <= |p|
    ensures forall i :: q <= i < k ==> p[i] != RBRACKET
    ensures k < |p| ==> p[k] == RBRACKET
    decreases |p| - q
  {
    if q == |p| || p[q] == RBRACKET then q else CloseOf(p, q + 1)
  }

  /** Where the atom that starts at `q` ends. A set ends after its `]`; without one the
      answer is `|p| + 1`, past the terminator. */
  function AtomEnd(p: Text, q: nat): nat
    requires q < |p|
  {
    if p[q] == LBRACKET then CloseOf(p, q + 1) + 1 else q + 1
  }

  function AtomAt(p: Text, q: nat): Atom
    requires q < |p| && AtomEnd(p, q) <= |p|
  {
    if p[q] == LBRACKET then Set(p[q + 1..AtomEnd(p, q) - 1])
    else if p[q] == STAR then Star
    else if p[q] == QUESTION then AnyOne
    else Literal(p[q])
  }

  /** Every `[` that starts a set, from `q` on, has its `]`. */
  predicate Closed(p: Text, q: nat)
    requires q <= |p|
    decreases |p| - q
  {
    q < |p| ==> AtomEnd(p, q) <= |p| && Closed(p, AtomEnd(p, q))
  }

  /** The pattern from `q` on, read as a list of atoms. */
  function Atoms(p: Text, q: nat): seq<Atom>
    requires q <= |p| && Closed(p, q)
    decreases |p| - q
  {
    if q == |p| then [] else [AtomAt(p, q)] + Atoms(p, AtomEnd(p, q))
  }

  /** Position `i` of a set's text lets `c` in: a plain character admits itself; a dash
      admits the characters between its neighbours (from NUL when it comes first), and the
      one after it; a dash that ends the set admits nothing. */
  predicate Admits(body: Text, i: nat, c: Unit)
    requires i < |body|
  {
    if body[i] != DASH then c == body[i]
    else
      && i + 1 < |body|
      && ((if i == 0 then 0 else body[i - 1]) <= c <= body[i + 1] || c == body[i + 1])
  }

  predicate InSet(body: Text, c: Unit) {
    exists i :: 0 <= i < |body| && Admits(body, i, c)
  }

  predicate Accepts(a: Atom, piece: Text) {
    match a
    case Star => true
    case AnyOne => |piece| == 1
    case Set(body) => |piece| == 1 && InSet(body, piece[0])
    case Literal(c) => piece == [c]
  }

  function Join(pieces: seq<Text>): Text {
    if pieces == [] then [] else pieces[0] + Join(pieces[1..])
  }

  /** `pieces` cuts `s` into consecutive parts, one accepted by each atom. */
  ghost predicate IsCut(atoms: seq<Atom>, s: Text, pieces: seq<Text>) {
    && |pieces| == |atoms|
    && Join(pieces) == s
    && forall i :: 0 <= i < |atoms| ==> Accepts(atoms[i], pieces[i])
  }

  /** The same thing, one atom at a time. */
  ghost predicate Matches(atoms: seq<Atom>, s: Text)
    decreases |atoms|
  {
    if atoms == [] then s == []
    else exists k :: 0 <= k <= |s| && Accepts(atoms[0], s[..k]) && Matches(atoms[1..], s[k..])
  }

  lemma {:induction false} MatchesGivesCut(atoms: seq<Atom>, s: Text) returns (pieces: seq<Text>)
    requires Matches(atoms, s)
    ensures IsCut(atoms, s, pieces)
    decreases |atoms|
  {
    if atoms == [] {
      pieces := [];
    } else {
      var k :| 0 <= k <= |s| && Accepts(atoms[0], s[..k]) && Matches(atoms[1..], s[k..]);
      var rest := MatchesGivesCut(atoms[1..], s[k..]);
      pieces := [s[..k]] + rest;
      assert s == s[..k] + s[k..];
    }
  }

  lemma {:induction false} CutGivesMatches(atoms: seq<Atom>, s: Text, pieces: seq<Text>)
    requires IsCut(atoms, s, pieces)
    ensures Matches(atoms, s)
    decreases |atoms|
  {
    if atoms == [] {
    } else {
      var k := |pieces[0]|;
      assert s[..k] == pieces[0] && s[k..] == Join(pieces[1..]);
      CutGivesMatches(atoms[1..], s[k..], pieces[1..]);
    }
  }

  /** A match is exactly a way of cutting the string into one accepted piece per atom. */
  lemma MatchesIffCut(atoms: seq<Atom>, s: Text)
    ensures Matches(atoms, s) <==> exists pieces :: IsCut(atoms, s, pieces)
  {
    if Matches(atoms, s) {
      var pieces := MatchesGivesCut(atoms, s);
    }
    if pieces :| IsCut(atoms, s, pieces) {
      CutGivesMatches(atoms, s, pieces);
    }
  }

  /** A leading star either gives up at once or swallows one more character. */
  lemma StarUnfolds(atoms: seq<Atom>, s: Text)
    requires atoms != [] && atoms[0] == Star
    ensures Matches(atoms, s) <==> Matches(atoms[1..], s) || (s != [] && Matches(atoms, s[1..]))
  {
    assert s[0..] == s;
    if Matches(atoms, s) && !Matches(atoms[1..], s) {
      var k :| 0 <= k <= |s| && Matches(atoms[1..], s[k..]);
      assert s[1..][k - 1..] == s[k..];
    }
    if s != [] && Matches(atoms, s[1..]) {
      var k :| 0 <= k <= |s| - 1 && Matches(atoms[1..], s[1..][k..]);
      assert s[k + 1..] == s[1..][k..];
      assert Accepts(atoms[0], s[..k + 1]);
    }
  }

  /** Every atom but a star consumes exactly one character. */
  lemma OneUnfolds(atoms: seq<Atom>, s: Text)
    requires atoms != [] && atoms[0] != Star
    ensures Matches(atoms, s) <==>
            s != [] && Accepts(atoms[0], [s[0]]) && Matches(atoms[1..], s[1..])
  {
    if s != [] { assert s[..1] == [s[0]]; }
  }

  /** The scan of one set: whether `c` is in it, with the last character read and the
      pattern position, from which the second loop skips to the `]`. */
  method ScanSet(pat: Text, start: nat, c: Unit, ghost k: nat)
    returns (found: bool, p: Char16, q: nat)
    requires start <= k < |pat| && k == CloseOf(pat, start)
    ensures found <==> InSet(pat[start..k], c)
    ensures found ==> p != 0 && p != RBRACKET && start < q <= k
  {
    ghost var body := pat[start..k];
    var l: Char16 := 0;
    q := start;
    while true
      invariant start <= q <= k
      invariant forall i :: 0 <= i < q - start ==> !Admits(body, i, c)
      invariant q == start ==> l == 0
      invariant q > start && body[q - start - 1] != DASH ==> l == body[q - start - 1]
      invariant q > start && body[q - start - 1] == DASH ==> q < k && l == body[q - start]
      decreases k - q
    {
      p := At(pat, q);
      q := q + 1;
      if p == RBRACKET {
        return false, p, q;
      }
      ghost var j := q - start - 1;
      assert p == body[j];
      if p == DASH {
        p := At(pat, q);
        if p == 0 || p == RBRACKET {
          return false, p, q;
        }
        assert p == body[j + 1];
        if l <= c && c <= p {
          assert Admits(body, j, c);
          return true, p, q;
        }
      }
      l := p;
      if c == p {
        assert Admits(body, j, c);
        return true, p, q;
      }
    }
  }

  /** The `[` case: `q` comes back just after the `]` when the character is in the set. */
  method MatchSet(pat: Text, start: nat, c: Unit, ghost k: nat) returns (found: bool, q: nat)
    requires start <= k < |pat| && k == CloseOf(pat, start)
    ensures found <==> InSet(pat[start..k], c)
    ensures found ==> q == k + 1
  {
    var p;
    found, p, q := ScanSet(pat, start, c, k);
    if found {
      while p != 0 && p != RBRACKET
        invariant p == RBRACKET ==> q == k + 1
        invariant p != RBRACKET ==> p != 0 && start < q <= k
        decreases |pat| + 1 - q
      {
        p := At(pat, q);
        q := q + 1;
      }
    }
  }

  /** What the atom at the head of a pattern asks of the string, for every atom but a star. */
  lemma HeadUnfolds(pat: Text, q: nat, str: Text, s: nat)
    requires q < |pat| && Closed(pat, q) && pat[q] != STAR && s <= |str|
    ensures Matches(Atoms(pat, q), str[s..]) <==>
            && s < |str|
            && Accepts(AtomAt(pat, q), [str[s]])
            && Matches(Atoms(pat, AtomEnd(pat, q)), str[s + 1..])
  {
    var atoms := Atoms(pat, q);
    assert atoms[0] == AtomAt(pat, q) && atoms[1..] == Atoms(pat, AtomEnd(pat, q));
    OneUnfolds(atoms, str[s..]);
    if s < |str| { assert str[s..][1..] == str[s + 1..]; }
  }

  method MetaMatch(str: Text, si: nat, pat: Text, pi: nat) returns (r: bool)
    requires si <= |str| && pi <= |pat| && Closed(pat, pi)
    ensures r <==> Matches(Atoms(pat, pi), str[si..])
    decreases |pat| - pi, 2
  {
    var s, q := si, pi;
    while true
      invariant si <= s <= |str| && pi <= q <= |pat| && Closed(pat, q)
      invariant Matches(Atoms(pat, pi), str[si..]) <==> Matches(Atoms(pat, q), str[s..])
      decreases |pat| - q
    {
      var p := At(pat, q);
      if p == 0 {
        return At(str, s) == 0;
      }
      if p == STAR {
        r := MatchStar(str, s, pat, q);
        return;
      }
      HeadUnfolds(pat, q, str, s);
      var ok;
      ok, q := MatchOne(str, s, pat, q);
      if !ok {
        return false;
      }
      s := s + 1;
    }
  }

  /** The cases that consume one character. */
  method MatchOne(str: Text, s: nat, pat: Text, q: nat) returns (ok: bool, q': nat)
    requires s <= |str| && q < |pat| && AtomEnd(pat, q) <= |pat| && pat[q] != STAR
    ensures ok <==> s < |str| && Accepts(AtomAt(pat, q), [str[s]])
    ensures ok ==> q' == AtomEnd(pat, q)
  {
    q' := q + 1;
    var p, c := At(pat, q), At(str, s);
    if p == QUESTION {
      ok := c != 0;
    } else if p == LBRACKET {
      if c == 0 {
        return false, q';
      }
      ok, q' := MatchSet(pat, q', c, CloseOf(pat, q + 1));
    } else {
      ok := c == p;
    }
  }

  /** The `*` case: the rest of the pattern is tried at every remaining position. */
  method MatchStar(str: Text, si: nat, pat: Text, q: nat) returns (r: bool)
    requires si <= |str| && q < |pat| && pat[q] == STAR && Closed(pat, q)
    ensures r <==> Matches(Atoms(pat, q), str[si..])
    decreases |pat| - q, 1
  {
    hide Matches, Atoms, Closed;
    ghost var atoms := Atoms(pat, q);
    StarFirst(pat, q);
    var s := si;
    while At(str, s) != 0
      invariant si <= s <= |str|
      invariant Matches(atoms, str[si..]) <==> Matches(atoms, str[s..])
      decreases |str| - s
    {
      StarUnfolds(atoms, str[s..]);
      assert str[s..][1..] == str[s + 1..];
      var m := MetaMatch(str, s, pat, q + 1);
      if m {
        return true;
      }
      s := s + 1;
    }
    StarUnfolds(atoms, str[s..]);
    r := MetaMatch(str, s, pat, q + 1);
  }

  lemma StarFirst(pat: Text, q: nat)
    requires q < |pat| && pat[q] == STAR && Closed(pat, q)
    ensures Closed(pat, q + 1)
    ensures var a := Atoms(pat, q); a != [] && a[0] == Star && a[1..] == Atoms(pat, q + 1)
  {
  }

  /** What follows does not change where a set ends. */
  lemma {:induction false} CloseOfConcat(p1: Text, p2: Text, q: nat)
    requires q <= |p1|
    ensures CloseOf(p1, q) < |p1| ==> CloseOf(p1 + p2, q) == CloseOf(p1, q)
    decreases |p1| - q
  {
    if q == |p1| || p1[q] == RBRACKET {
    } else {
      CloseOfConcat(p1, p2, q + 1);
    }
  }

  lemma {:induction false} CloseOfShift(p1: Text, p2: Text, q: nat)
    requires q <= |p2|
    ensures CloseOf(p1 + p2, |p1| + q) == |p1| + CloseOf(p2, q)
    decreases |p2| - q
  {
    if q == |p2| || p2[q] == RBRACKET {
    } else {
      CloseOfShift(p1, p2, q + 1);
    }
  }

  lemma AtomShift(p1: Text, p2: Text, q: nat)
    requires q < |p2| && AtomEnd(p2, q) <= |p2|
    ensures AtomEnd(p1 + p2, |p1| + q) == |p1| + AtomEnd(p2, q)
    ensures AtomAt(p1 + p2, |p1| + q) == AtomAt(p2, q)
  {
    CloseOfShift(p1, p2, q + 1);
    var k := AtomEnd(p2, q) - 1;
    if k > q { assert (p1 + p2)[|p1| + q + 1..|p1| + k] == p2[q + 1..k]; }
  }

  lemma AtomConcat(p1: Text, p2: Text, q: nat)
    requires q < |p1| && AtomEnd(p1, q) <= |p1|
    ensures AtomEnd(p1 + p2, q) == AtomEnd(p1, q)
    ensures AtomAt(p1 + p2, q) == AtomAt(p1, q)
  {
    CloseOfConcat(p1, p2, q + 1);
    var k := AtomEnd(p1, q) - 1;
    if k > q { assert (p1 + p2)[q + 1..k] == p1[q + 1..k]; }
  }

  lemma AtomNotEmpty(p: Text, q: nat)
    requires q < |p|
    ensures q < AtomEnd(p, q)
  {
  }

  lemma {:induction false} AtomsShift(p1: Text, p2: Text, q: nat)
    requires q <= |p2| && Closed(p2, q)
    ensures Closed(p1 + p2, |p1| + q) && Atoms(p1 + p2, |p1| + q) == Atoms(p2, q)
    decreases |p2| - q
  {
    hide AtomEnd, AtomAt, CloseOf;
    if q == |p2| {
    } else {
      AtomNotEmpty(p2, q);
      AtomShift(p1, p2, q);
      AtomsShift(p1, p2, AtomEnd(p2, q));
    }
  }

  /** Patterns compose: the atoms of a concatenation are the concatenated atoms. */
  lemma {:induction false} AtomsConcat(p1: Text, p2: Text, q: nat)
    requires q <= |p1| && Closed(p1, q) && Closed(p2, 0)
    ensures Closed(p1 + p2, q) && Atoms(p1 + p2, q) == Atoms(p1, q) + Atoms(p2, 0)
    decreases |p1| - q
  {
    if q == |p1| {
      AtomsShift(p1, p2, 0);
    } else {
      var e := AtomEnd(p1, q);
      AtomConcat(p1, p2, q);
      AtomsConcat(p1, p2, e);
      var a, rest := AtomAt(p1, q), Atoms(p1, e);
      assert [a] + (rest + Atoms(p2, 0)) == ([a] + rest) + Atoms(p2, 0);
    }
  }

  lemma {:induction false} MatchesConcat(a1: seq<Atom>, a2: seq<Atom>, s: Text)
    ensures Matches(a1 + a2, s) <==>
            exists k :: 0 <= k <= |s| && Matches(a1, s[..k]) && Matches(a2, s[k..])
    decreases |a1|
  {
    hide Matches;
    if Matches(a1 + a2, s) {
      var k := MatchSplits(a1, a2, s);
    }
    if k :| 0 <= k <= |s| && Matches(a1, s[..k]) && Matches(a2, s[k..]) {
      assert s == s[..k] + s[k..];
      MatchesJoin(a1, a2, s[..k], s[k..]);
    }
  }

  lemma {:induction false} MatchSplits(a1: seq<Atom>, a2: seq<Atom>, s: Text) returns (k: nat)
    requires Matches(a1 + a2, s)
    ensures k <= |s| && Matches(a1, s[..k]) && Matches(a2, s[k..])
    decreases |a1|
  {
    if a1 == [] {
      assert a1 + a2 == a2 && s[0..] == s;
      k := 0;
    } else {
      assert (a1 + a2)[1..] == a1[1..] + a2;
      var j :| 0 <= j <= |s| && Accepts(a1[0], s[..j]) && Matches(a1[1..] + a2, s[j..]);
      var k' := MatchSplits(a1[1..], a2, s[j..]);
      k := j + k';
      assert s[..k][..j] == s[..j] && s[..k][j..] == s[j..][..k'] && s[k..] == s[j..][k'..];
    }
  }

  lemma {:induction false} MatchesJoin(a1: seq<Atom>, a2: seq<Atom>, s1: Text, s2: Text)
    requires Matches(a1, s1) && Matches(a2, s2)
    ensures Matches(a1 + a2, s1 + s2)
    decreases |a1|
  {
    if a1 == [] {
      assert a1 + a2 == a2 && s1 + s2 == s2;
    } else {
      hide Accepts;
      var j :| 0 <= j <= |s1| && Accepts(a1[0], s1[..j]) && Matches(a1[1..], s1[j..]);
      MatchesJoin(a1[1..], a2, s1[j..], s2);
      FrontOf(a1, a2, 1);
      FrontOf(s1, s2, j);
      MatchesCons(a1 + a2, s1 + s2, j);
    }
  }

  lemma FrontOf<T>(x: seq<T>, y: seq<T>, j: nat)
    requires j <= |x|
    ensures (x + y)[..j] == x[..j] && (x + y)[j..] == x[j..] + y
  {
  }

  lemma MatchesCons(atoms: seq<Atom>, s: Text, j: nat)
    requires atoms != [] && j <= |s| && Accepts(atoms[0], s[..j]) && Matches(atoms[1..], s[j..])
    ensures Matches(atoms, s)
  {
    hide Accepts;
  }

  /** A string matches `p1 + p2` exactly when it splits into a match of each. */
  lemma PatternConcat(p1: Text, p2: Text, s: Text)
    requires Closed(p1, 0) && Closed(p2, 0)
    ensures Closed(p1 + p2, 0)
    ensures Matches(Atoms(p1 + p2, 0), s) <==>
            exists k :: 0 <= k <= |s| && Matches(Atoms(p1, 0), s[..k]) && Matches(Atoms(p2, 0), s[k..])
  {
    AtomsConcat(p1, p2, 0);
    MatchesConcat(Atoms(p1, 0), Atoms(p2, 0), s);
  }

  // ----- What the single atoms match -----

  /** A star matches anything, a question mark any one character, and any other character that
      does not open a set itself. */
  lemma AtomsMean(c: Unit, s: Text)
    ensures var star: Text := ['*' as int]; Closed(star, 0) && Matches(Atoms(star, 0), s)
    ensures var any: Text := ['?' as int]; Closed(any, 0) && (Matches(Atoms(any, 0), s) <==> |s| == 1)
    ensures c != '*' as int && c != '?' as int && c != '[' as int ==>
              Closed([c], 0) && (Matches(Atoms([c], 0), s) <==> s == [c])
    ensures Closed([], 0) && (Matches(Atoms([], 0), s) <==> s == [])
  {
    hide Matches, Atoms, Closed;
    NoAtoms(s);
    OneCharacter('*' as int);
    OneCharacter('?' as int);
    OneAtom(Star, s);
    OneAtom(AnyOne, s);
    if c != '*' as int && c != '?' as int && c != '[' as int {
      OneCharacter(c);
      OneAtom(Literal(c), s);
    }
  }

  lemma NoAtoms(s: Text)
    ensures Closed([], 0) && (Matches(Atoms([], 0), s) <==> s == [])
  {
  }

  lemma OneCharacter(c: Unit)
    requires c != '[' as int
    ensures Closed([c], 0)
    ensures Atoms([c], 0) == [if c == '*' as int then Star else if c == '?' as int then AnyOne else Literal(c)]
  {
    assert AtomEnd([c], 0) == 1;
    assert Atoms([c], 1) == [];
  }

  lemma OneAtom(a: Atom, s: Text)
    ensures Matches([a], s) <==> Accepts(a, s)
  {
    hide Accepts;
    assert [a][1..] == [] && s[..|s|] == s && s[|s|..] == [];
  }

  /** What a set is written from: single characters and ranges. */
  datatype SetItem = One(c: Unit) | Range(lo: Unit, hi: Unit)
  {
    function Written(): Text {
      match this
      case One(c) => [c]
      case Range(lo, hi) => [lo, '-' as int, hi]
    }

    predicate NoDash() {
      match this
      case One(c) => c != '-' as int
      case Range(lo, hi) => lo != '-' as int && hi != '-' as int
    }
  }

  function SetText(items: seq<SetItem>): Text {
    if items == [] then [] else items[0].Written() + SetText(items[1..])
  }

  lemma InSetConcat(a: Text, b: Text, c: Unit)
    requires a != [] && a[|a| - 1] != DASH && (b != [] ==> b[0] != DASH)
    ensures InSet(a + b, c) <==> InSet(a, c) || InSet(b, c)
  {
    var s := a + b;
    forall i | 0 <= i < |a| ensures Admits(s, i, c) == Admits(a, i, c) {
    }
    forall i | 0 <= i < |b| ensures Admits(s, |a| + i, c) == Admits(b, i, c) {
      assert s[|a| + i] == b[i];
    }
    if i :| 0 <= i < |s| && Admits(s, i, c) {
      if i < |a| {
        assert Admits(a, i, c);
      } else {
        assert Admits(b, i - |a|, c);
      }
    }
    if i :| 0 <= i < |b| && Admits(b, i, c) {
      assert Admits(s, |a| + i, c);
    }
  }

  lemma ItemMeans(item: SetItem, c: Unit)
    requires item.NoDash()
    ensures InSet(item.Written(), c) <==>
            if item.One? then c == item.c
            else item.lo <= c <= item.hi || c == item.lo || c == item.hi
  {
    var t := item.Written();
    match item
    case One(x) =>
      assert c == x ==> Admits(t, 0, c);
    case Range(lo, hi) =>
      assert Admits(t, 0, c) <==> c == lo;
      assert Admits(t, 1, c) <==> lo <= c <= hi || c == hi;
      assert Admits(t, 2, c) <==> c == hi;
  }

  /** A set admits exactly the characters that one of its items covers; the ends of a range are
      admitted even when they are in the wrong order. */
  lemma {:induction false} SetMeans(items: seq<SetItem>, c: Unit)
    requires forall i :: 0 <= i < |items| ==> items[i].NoDash()
    ensures InSet(SetText(items), c) <==>
            exists i :: 0 <= i < |items| &&
              if items[i].One? then c == items[i].c
              else items[i].lo <= c <= items[i].hi || c == items[i].lo || c == items[i].hi
  {
    hide InSet;
    if items == [] {
      NothingIn(c);
    } else {
      var rest := items[1..];
      SetMeans(rest, c);
      ItemMeans(items[0], c);
      FirstNoDash(rest);
      InSetConcat(items[0].Written(), SetText(rest), c);
      assert forall i :: 0 <= i < |rest| ==> rest[i] == items[i + 1];
      assert forall i :: 0 < i < |items| ==> items[i] == rest[i - 1];
    }
  }

  lemma NothingIn(c: Unit)
    ensures !InSet([], c)
  {
  }

  lemma FirstNoDash(items: seq<SetItem>)
    requires forall i :: 0 <= i < |items| ==> items[i].NoDash()
    ensures SetText(items) != [] ==> SetText(items)[0] != DASH
  {
  }

  /** A dash in front of a set begins a range from the lowest character; one at its end adds
      nothing. */
  lemma EdgeDashes(hi: Unit, y: Text, x: Text, c: Unit)
    ensures c <= hi ==> InSet(['-' as int, hi] + y, c)
    ensures x == [] || x[|x| - 1] != '-' as int ==> (InSet(x + ['-' as int], c) <==> InSet(x, c))
  {
    assert c <= hi ==> Admits(['-' as int, hi] + y, 0, c);
    var s := x + ['-' as int];
    if x == [] || x[|x| - 1] != '-' as int {
      assert forall i :: 0 <= i < |x| ==> Admits(s, i, c) == Admits(x, i, c);
      assert !Admits(s, |x|, c);
    }
  }

  /** A bracketed set as a whole pattern. */
  lemma SetPattern(body: Text, s: Text)
    requires RBRACKET !in body
    ensures var p := ['[' as int] + body + [']' as int];
            Closed(p, 0) && (Matches(Atoms(p, 0), s) <==> |s| == 1 && InSet(body, s[0]))
  {
    hide InSet, Matches, Closed, Atoms;
    var p := ['[' as int] + body + [']' as int];
    BracketedSet(body);
    OneAtom(Set(body), s);
  }

  lemma BracketedSet(body: Text)
    requires RBRACKET !in body
    ensures var p := ['[' as int] + body + [']' as int]; Closed(p, 0) && Atoms(p, 0) == [Set(body)]
  {
    var p := ['[' as int] + body + [']' as int];
    var k := CloseOf(p, 1);
    assert p[|p| - 1] == RBRACKET;
    assert forall i :: 1 <= i < |p| - 1 ==> p[i] == body[i - 1];
    assert k == |p| - 1 && p[1..k] == body;
    assert AtomEnd(p, 0) == |p| && Atoms(p, |p|) == [];
  }

  /** A range as a whole pattern, as in `[a-c]`. */
  lemma RangePattern(lo: Unit, hi: Unit, s: Text)
    requires lo != '-' as int && hi != '-' as int && lo != ']' as int && hi != ']' as int
    ensures var p := ['[' as int, lo, '-' as int, hi, ']' as int];
            && Closed(p, 0)
            && (Matches(Atoms(p, 0), s) <==> |s| == 1 && (lo <= s[0] <= hi || s[0] == lo || s[0] == hi))
  {
    hide InSet, Matches, Closed, Atoms;
    var items := [Range(lo, hi)];
    assert SetText(items) == [lo, '-' as int, hi] + SetText([]);
    SetPattern(SetText(items), s);
    assert ['[' as int] + SetText(items) + [']' as int] == ['[' as int, lo, '-' as int, hi, ']' as int];
    if |s| == 1 {
      SetMeans(items, s[0]);
      assert items[0] == Range(lo, hi);
    }
  }
}
