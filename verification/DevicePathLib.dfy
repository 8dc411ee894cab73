/** The device path routines of gnu-efi/lib/dpath.c, over paths that lie in byte memory. */
module DevicePathLib {
  import opened Common
  import opened DevicePath

  // ----- CompareMem (gnu-efi/lib/runtime/efirtlib.c) -----

  /** A comparison of `len` bytes stays inside both memories: it ends at the first difference. */
  predicate Comparable(a: seq<Byte>, i: nat, b: seq<Byte>, j: nat, len: nat)
    decreases len
  {
    len == 0 ||
    (i < |a| && j < |b| && (a[i] == b[j] ==> Comparable(a, i + 1, b, j + 1, len - 1)))
  }

  method CompareMem(dest: array<Byte>, d: nat, src: array<Byte>, s: nat, len: nat) returns (r: int)
    requires d <= dest.Length && s <= src.Length && Comparable(dest[..], d, src[..], s, len)
    ensures r == 0 <==> d + len <= dest.Length && s + len <= src.Length && dest[d..d + len] == src[s..s + len]
  {
    var i := 0;
    while i < len
      invariant i <= len && d + i <= dest.Length && s + i <= src.Length
      invariant dest[d..d + i] == src[s..s + i]
      invariant Comparable(dest[..], d + i, src[..], s + i, len - i)
    {
      if dest[d + i] != src[s + i] {
        if d + len <= dest.Length && s + len <= src.Length {
          assert dest[d..d + len][i] != src[s..s + len][i];
        }
        return (dest[d + i] as int) - (src[s + i] as int);
      }
      i := i + 1;
    }
    return 0;
  }

  // ----- Walking -----

  lemma {:induction false} AfterOk(p: seq<Node>, cap: nat)
    requires IsPath(p)
    ensures After(p, cap).Some? ==> IsPath(After(p, cap).value)
  {
    if p[0].IsEndType() || cap == 0 {
    } else {
      AfterOk(p[1..], cap - 1);
    }
  }

  lemma SliceAdd(m: seq<Byte>, i: nat, j: nat, k: nat)
    requires i <= j <= k <= |m|
    ensures m[i..j] + m[j..k] == m[i..k]
  {
  }

  lemma HoldsSnoc(m: seq<Byte>, o: nat, done: seq<Node>, n: Node)
    requires HoldsAt(m, o, done)
    requires o + Size(done) + n.Length() <= |m|
    requires m[o + Size(done)..o + Size(done) + n.Length()] == EncodeNode(n)
    ensures HoldsAt(m, o, done + [n]) && Size(done + [n]) == Size(done) + n.Length()
  {
    hide EncodeNode, Size, Encode;
    EncodeConcat(done, [n]);
    EncodeOne(n);
    SliceAdd(m, o, o + Size(done), o + Size(done) + n.Length());
  }

  /** A walk that began at `o` has passed the nodes `done` and stands at `cur`, before `q`. */
  ghost predicate Walking(m: seq<Byte>, o: nat, p: seq<Node>, cur: nat, q: seq<Node>, done: seq<Node>)
    requires Terminated(p)
  {
    && IsPath(q) && |done| <= CAP
    && HoldsAt(m, cur, q) && HoldsAt(m, o, done) && cur == o + Size(done)
    && Piece(p, CAP) == done + Piece(q, CAP - |done|)
    && After(p, CAP) == After(q, CAP - |done|)
  }

  lemma WalkOn(m: seq<Byte>, o: nat, p: seq<Node>, cur: nat, q: seq<Node>, done: seq<Node>)
    requires Terminated(p) && Walking(m, o, p, cur, q, done)
    requires !q[0].IsEndType() && |done| < CAP
    ensures Walking(m, o, p, cur + q[0].Length(), q[1..], done + [q[0]])
  {
    hide HoldsAt, Encode, EncodeNode, Size, Piece, After;
    WalkStep(m, cur, q);
    HoldsSnoc(m, o, done, q[0]);
    var c := CAP - |done|;
    PieceStep(q, c);
    assert done + ([q[0]] + Piece(q[1..], c - 1)) == (done + [q[0]]) + Piece(q[1..], c - 1);
  }

  lemma PieceStep(q: seq<Node>, c: nat)
    requires Terminated(q) && !q[0].IsEndType() && c > 0
    ensures Terminated(q[1..])
    ensures Piece(q, c) == [q[0]] + Piece(q[1..], c - 1) && After(q, c) == After(q[1..], c - 1)
  {
  }

  lemma WalkEnds(m: seq<Byte>, o: nat, p: seq<Node>, cur: nat, q: seq<Node>, done: seq<Node>)
    requires Terminated(p) && Walking(m, o, p, cur, q, done)
    requires q[0].IsEndType() || |done| == CAP
    ensures Piece(p, CAP) == done
    ensures After(p, CAP) == if q[0].sub == END_ENTIRE then None else Some(q[1..])
    ensures q[0].sub != END_ENTIRE ==> IsPath(q[1..]) && HoldsAt(m, cur + q[0].Length(), q[1..])
  {
    WalkStep(m, cur, q);
  }

  method DevicePathInstance(buf: array<Byte>, path: Option<nat>, ghost p: seq<Node>)
    returns (start: Option<nat>, next: Option<nat>, size: nat)
    requires path.Some? ==> IsPath(p) && HoldsAt(buf[..], path.value, p)
    ensures path.None? ==> start.None?
    ensures path.Some? ==>
              && start == path
              && size == Size(Piece(p, CAP))
              && HoldsAt(buf[..], start.value, Piece(p, CAP))
              && (match After(p, CAP)
                  case None => next == None
                  case Some(rest) => next.Some? && IsPath(rest) && HoldsAt(buf[..], next.value, rest))
  {
    hide HoldsAt, Piece, After, EncodeNode, Size;
    if path == None {
      return None, None, 0;
    }
    ghost var m := buf[..];
    var devPath: nat, nextNode: nat := path.value, path.value;
    var count := 0;
    ghost var q, done: seq<Node> := p, [];
    WalkBegins(m, devPath, p);
    while true
      invariant m == buf[..] && count == |done|
      invariant Walking(m, path.value, p, devPath, q, done)
      decreases |q|
    {
      WalkStep(m, devPath, q);
      nextNode := devPath + LengthAt(buf[..], devPath);
      if EndTypeAt(buf[..], devPath) {
        break;
      }
      if count > 512 {
        break;
      }
      WalkOn(m, path.value, p, devPath, q, done);
      done, q := done + [q[0]], q[1..];
      devPath := nextNode;
      count := count + 1;
    }
    WalkEnds(m, path.value, p, devPath, q, done);
    next := Some(nextNode);
    if buf[devPath + 1] == END_ENTIRE {
      next := None;
    }
    return path, next, devPath - path.value;
  }

  lemma WalkBegins(m: seq<Byte>, o: nat, p: seq<Node>)
    requires IsPath(p) && HoldsAt(m, o, p)
    ensures Walking(m, o, p, o, p, [])
  {
    assert Encode([]) == [];
  }

  method DevicePathInstanceCount(buf: array<Byte>, path: Option<nat>, ghost p: seq<Node>) returns (count: nat)
    requires path.Some? ==> IsPath(p) && HoldsAt(buf[..], path.value, p)
    ensures count == if path.None? then 0 else |Visits(p)|
  {
    hide HoldsAt, Piece, Terminated, AllOk;
    count := 0;
    var devicePath := path;
    ghost var q := p;
    while true
      invariant devicePath.Some? ==> IsPath(q) && HoldsAt(buf[..], devicePath.value, q)
      invariant (if path.None? then 0 else |Visits(p)|) == count + if devicePath.None? then 0 else |Visits(q)|
      decreases devicePath.Some?, |q|
    {
      var start, next, size := DevicePathInstance(buf, devicePath, q);
      if start == None {
        break;
      }
      if next.Some? { q := After(q, CAP).value; }
      devicePath := next;
      count := count + 1;
    }
  }

  lemma PathSuffix(p: seq<Node>)
    requires IsPath(p) && !p[0].IsEnd()
    ensures IsPath(p[1..])
  {
  }

  /** The walk to the end-of-path node. */
  method FindEnd(buf: array<Byte>, start: nat, ghost p: seq<Node>) returns (devPath: nat)
    requires IsPath(p) && HoldsAt(buf[..], start, p)
    ensures devPath + HEADER == start + Size(p) <= buf.Length
    ensures LengthAt(buf[..], devPath) == HEADER
  {
    hide HoldsAt, Encode, EncodeNode, LengthAt;
    devPath := start;
    ghost var q := p;
    WalkStep(buf[..], devPath, q);
    while !EndAt(buf[..], devPath)
      invariant IsPath(q) && HoldsAt(buf[..], devPath, q)
      invariant devPath + HEADER <= buf.Length && buf[devPath] == q[0].kind && buf[devPath + 1] == q[0].sub
      invariant LengthAt(buf[..], devPath) == q[0].Length()
      invariant devPath + Size(q) == start + Size(p)
      decreases |q|
    {
      WalkStep(buf[..], devPath, q);
      PathSuffix(q);
      devPath := devPath + LengthAt(buf[..], devPath);
      q := q[1..];
      WalkStep(buf[..], devPath, q);
    }
    WalkStep(buf[..], devPath, q);
    assert Size(q) == HEADER + Size([]);
  }

  method DevicePathSize(buf: array<Byte>, start: nat, ghost p: seq<Node>) returns (size: nat)
    requires IsPath(p) && HoldsAt(buf[..], start, p)
    ensures size == Size(p)
  {
    var devPath := FindEnd(buf, start, p);
    size := devPath - start + HEADER;
  }

  method DuplicateDevicePath(buf: array<Byte>, start: nat, granted: bool, ghost p: seq<Node>)
    returns (r: array?<Byte>)
    requires IsPath(p) && HoldsAt(buf[..], start, p)
    ensures granted <==> r != null
    ensures r != null ==> fresh(r) && r[..] == Encode(p)
  {
    var size := DevicePathSize(buf, start, p);
    if !granted {
      return null;
    }
    var dup := new Byte[size];
    CopyMem(dup, 0, buf, start, size);
    assert dup[..] == buf[start..start + size];
    r := dup;
  }

  // ----- Matching -----

  predicate NoEnds(x: seq<Node>) {
    x == [] || (!x[0].IsEndType() && NoEnds(x[1..]))
  }

  lemma {:induction false} PieceHasNoEnds(p: seq<Node>, cap: nat)
    requires IsPath(p)
    ensures NoEnds(Piece(p, cap)) && AllFit(Piece(p, cap))
  {
    if p[0].IsEndType() || cap == 0 {
    } else {
      PieceHasNoEnds(p[1..], cap - 1);
      assert Piece(p, cap)[1..] == Piece(p[1..], cap - 1);
    }
  }

  /** The nodes up to the first end node, that one included. */
  function FirstPart(p: seq<Node>): seq<Node>
    requires Terminated(p)
  {
    if p[0].IsEndType() then [p[0]] else [p[0]] + FirstPart(p[1..])
  }

  predicate Stops(t: seq<Node>) {
    t != [] && (if t[0].IsEndType() then |t| == 1 else Stops(t[1..]))
  }

  lemma {:induction false} FirstPartStops(p: seq<Node>)
    requires IsPath(p)
    ensures Stops(FirstPart(p)) && AllFit(FirstPart(p))
    ensures var t := FirstPart(p); t[..|t| - 1] == Instances(p)[0]
  {
    if p[0].IsEndType() {
      assert FirstPart(p)[1..] == [];
    } else {
      FirstPartStops(p[1..]);
      var t := FirstPart(p[1..]);
      assert FirstPart(p)[1..] == t;
      assert ([p[0]] + t)[..|t|] == [p[0]] + t[..|t| - 1];
    }
  }

  /** Where two byte strings first differ: at `k`, or not at all below `n`. */
  ghost predicate FirstDifference(a: seq<Byte>, b: seq<Byte>, n: nat, k: nat) {
    && k <= n && k <= |a| && k <= |b|
    && a[..k] == b[..k]
    && (k < n ==> k < |a| && k < |b| && a[k] != b[k])
  }

  lemma {:induction false} FindDifference(a: seq<Byte>, b: seq<Byte>, n: nat) returns (k: nat)
    requires n <= |a| && n <= |b|
    ensures FirstDifference(a, b, n, k)
    decreases n
  {
    if n == 0 {
      k := 0;
    } else {
      k := FindDifference(a, b, n - 1);
      if k == n - 1 && a[k] == b[k] {
        assert a[..n] == a[..k] + [a[k]] && b[..n] == b[..k] + [b[k]];
        k := n;
      }
    }
  }

  /** Different nodes differ within the shorter of their encodings. */
  lemma NodesDiffer(x: Node, y: Node) returns (k: nat)
    requires x.Fits() && y.Fits() && x != y
    ensures k < x.Length() && k < y.Length()
    ensures EncodeNode(x)[..k] == EncodeNode(y)[..k] && EncodeNode(x)[k] != EncodeNode(y)[k]
  {
    var a, b := EncodeNode(x), EncodeNode(y);
    k := FindDifference(a, b, HEADER);
    if k == HEADER {
      SameHeader(x, y);
      assert x.payload == a[HEADER..] && y.payload == b[HEADER..];
      k := FindDifference(a, b, |a|);
    }
  }

  lemma SameHeader(x: Node, y: Node)
    requires x.Fits() && y.Fits() && EncodeNode(x)[..HEADER] == EncodeNode(y)[..HEADER]
    ensures x.Length() == y.Length() && x.kind == y.kind && x.sub == y.sub
  {
    var a, b := EncodeNode(x)[..HEADER], EncodeNode(y)[..HEADER];
    assert a[0] == x.kind && a[1] == x.sub && a[2] == x.Length() % 256 && a[3] == x.Length() / 256;
    assert b[0] == y.kind && b[1] == y.sub && b[2] == y.Length() % 256 && b[3] == y.Length() / 256;
  }

  lemma HeadDiffers(x: seq<Node>, t: seq<Node>, n: nat, k: nat)
    requires x != [] && t != [] && k < n && k < x[0].Length() && k < t[0].Length()
    requires EncodeNode(x[0])[..k] == EncodeNode(t[0])[..k] && EncodeNode(x[0])[k] != EncodeNode(t[0])[k]
    ensures FirstDifference(Encode(x), Encode(t), n, k)
  {
    hide EncodeNode;
    assert Encode(x)[..k] == EncodeNode(x[0])[..k] && Encode(t)[..k] == EncodeNode(t[0])[..k];
  }

  lemma PrependDifference(h: seq<Byte>, a: seq<Byte>, b: seq<Byte>, n: nat, k: nat)
    requires FirstDifference(a, b, n, k)
    ensures FirstDifference(h + a, h + b, |h| + n, |h| + k)
  {
    assert (h + a)[..|h| + k] == h + a[..k] && (h + b)[..|h| + k] == h + b[..k];
  }

  lemma EncodeFirst(p: seq<Node>)
    requires p != []
    ensures Encode(p) == EncodeNode(p[0]) + Encode(p[1..])
  {
  }

  lemma TailDiffers(x: seq<Node>, t: seq<Node>, n: nat, k: nat)
    requires x != [] && t != [] && x[0] == t[0]
    requires FirstDifference(Encode(x[1..]), Encode(t[1..]), n, k)
    ensures FirstDifference(Encode(x), Encode(t), n + x[0].Length(), k + x[0].Length())
  {
    hide EncodeNode, FirstDifference, Encode, Size;
    EncodeFirst(x);
    EncodeFirst(t);
    PrependDifference(EncodeNode(x[0]), Encode(x[1..]), Encode(t[1..]), n, k);
  }

  /** Byte prefix is node prefix: comparing the bytes of `x` with a list `t` that stops at an
      end node, the first difference comes no later than the type byte of that end node, and
      there is none exactly when the nodes `x` are a prefix of `t`. */
  lemma {:induction false} PrefixDifference(x: seq<Node>, t: seq<Node>) returns (k: nat)
    requires NoEnds(x) && AllFit(x) && Stops(t) && AllFit(t)
    ensures FirstDifference(Encode(x), Encode(t), Size(x), k)
    ensures k + HEADER <= Size(t)
    ensures k == Size(x) <==> x <= t
    decreases |x|
  {
    hide Encode, FirstDifference, EncodeNode;
    if x == [] {
      k := 0;
      NoDifference(x, t);
    } else if x[0] != t[0] {
      k := NodesDiffer(x[0], t[0]);
      HeadDiffers(x, t, Size(x), k);
      KindDiffers(x[0], t[0], k);
    } else {
      var k' := PrefixDifference(x[1..], t[1..]);
      k := x[0].Length() + k';
      TailDiffers(x, t, Size(x[1..]), k');
      assert x == [x[0]] + x[1..] && t == [t[0]] + t[1..];
    }
  }

  lemma NoDifference(x: seq<Node>, t: seq<Node>)
    requires x == []
    ensures FirstDifference(Encode(x), Encode(t), Size(x), 0)
  {
  }

  lemma KindDiffers(x: Node, y: Node, k: nat)
    requires k < x.Length() && k < y.Length()
    requires EncodeNode(x)[..k] == EncodeNode(y)[..k]
    ensures x.kind != y.kind ==> k == 0
  {
    if k > 0 {
      assert EncodeNode(x)[..k][0] == x.kind && EncodeNode(y)[..k][0] == y.kind;
    }
  }

  // The comparison that LibMatchDevicePaths makes is safe, and says whether `x` is a prefix.

  lemma {:induction false} ComparableUpTo(a: seq<Byte>, i: nat, b: seq<Byte>, j: nat, len: nat, k: nat)
    requires k <= len && i + k <= |a| && j + k <= |b| && a[i..i + k] == b[j..j + k]
    requires k < len ==> i + k < |a| && j + k < |b| && a[i + k] != b[j + k]
    ensures Comparable(a, i, b, j, len)
    decreases k
  {
    if k == 0 {
    } else {
      assert a[i] == a[i..i + k][0] && b[j] == b[j..j + k][0];
      assert a[i + 1..i + k] == a[i..i + k][1..] && b[j + 1..j + k] == b[j..j + k][1..];
      ComparableUpTo(a, i + 1, b, j + 1, len - 1, k - 1);
    }
  }

  lemma WindowCompare(a: seq<Byte>, i: nat, ea: seq<Byte>, b: seq<Byte>, j: nat, eb: seq<Byte>, k: nat)
    requires i + |ea| <= |a| && a[i..i + |ea|] == ea && j + |eb| <= |b| && b[j..j + |eb|] == eb
    requires FirstDifference(eb, ea, |eb|, k) && k < |ea|
    ensures Comparable(a, i, b, j, |eb|)
    ensures (i + |eb| <= |a| && a[i..i + |eb|] == b[j..j + |eb|]) <==> k == |eb|
  {
    hide Comparable;
    var n := |eb|;
    assert a[i..i + k] == ea[..k] && b[j..j + k] == eb[..k];
    assert a[i + k] == ea[k];
    if k < n {
      assert b[j + k] == eb[k];
      if i + n <= |a| {
        assert a[i..i + n][k] == a[i + k] && b[j..j + n][k] == b[j + k];
      }
    }
    ComparableUpTo(a, i, b, j, n, k);
  }

  /** Comparing the bytes of `x` at `j` with memory that holds only the nodes up to the first
      end node of a path: the comparison does not run out of that memory, and it finds no
      difference exactly when `x` is a prefix of the path's first instance. */
  lemma InstanceCompare(a: seq<Byte>, i: nat, t: seq<Node>, b: seq<Byte>, j: nat, x: seq<Node>)
    requires NoEnds(x) && AllFit(x) && Stops(t) && AllFit(t)
    requires t != [] && HoldsAt(a, i, t) && HoldsAt(b, j, x)
    ensures Comparable(a, i, b, j, Size(x))
    ensures (i + Size(x) <= |a| && a[i..i + Size(x)] == b[j..j + Size(x)]) <==> x <= t[..|t| - 1]
  {
    hide NoEnds, AllFit, Comparable, Encode, FirstDifference, Size, Stops;
    var k := PrefixDifference(x, t);
    WindowCompare(a, i, Encode(t), b, j, Encode(x), k);
    PrefixBeforeEnd(x, t);
  }

  lemma {:induction false} PrefixBeforeEnd(x: seq<Node>, t: seq<Node>)
    requires NoEnds(x) && Stops(t)
    ensures x <= t <==> x <= t[..|t| - 1]
    decreases |x|
  {
    if x == [] || !(x <= t) {
    } else {
      assert x[0] == t[0] && x[1..] <= t[1..];
      PrefixBeforeEnd(x[1..], t[1..]);
      assert t[1..][..|t| - 2] == t[..|t| - 1][1..];
    }
  }

  predicate SomePrefix(v: seq<seq<Node>>, first: seq<Node>) {
    v != [] && (v[0] <= first || SomePrefix(v[1..], first))
  }

  lemma {:induction false} SomePrefixExists(v: seq<seq<Node>>, first: seq<Node>)
    ensures SomePrefix(v, first) <==> exists i :: 0 <= i < |v| && v[i] <= first
  {
    if v == [] {
    } else {
      SomePrefixExists(v[1..], first);
      if i :| 0 <= i < |v| && v[i] <= first {
        if i > 0 { assert v[1..][i - 1] == v[i]; }
      }
    }
  }

  lemma NextVisit(p: seq<Node>, first: seq<Node>)
    requires Terminated(p)
    ensures SomePrefix(Visits(p), first) <==>
            Piece(p, CAP) <= first || (After(p, CAP).Some? && SomePrefix(Visits(After(p, CAP).value), first))
  {
    if After(p, CAP).Some? {
      assert Visits(p)[1..] == Visits(After(p, CAP).value);
    } else {
      assert Visits(p)[1..] == [];
    }
  }

  method LibMatchDevicePaths(multi: array?<Byte>, single: array?<Byte>, ghost p: seq<Node>, ghost s: seq<Node>)
    returns (r: bool)
    requires multi != null ==> IsPath(p) && HoldsAt(multi[..], 0, p)
    requires single != null ==> IsPath(s) && HoldsAt(single[..], 0, FirstPart(s))
    ensures multi == null || single == null ==> !r
    ensures multi != null && single != null ==>
              (r <==> exists i :: 0 <= i < |Visits(p)| && Visits(p)[i] <= Instances(s)[0])
  {
    hide Piece, After, Terminated, AllOk, FirstPart, Comparable, Visits, Instances, SomePrefix;
    hide Encode, Stops, AllFit, NoEnds, Size;
    if multi == null || single == null {
      return false;
    }
    ghost var first := Instances(s)[0];
    FirstPartStops(s);
    SomePrefixExists(Visits(p), first);
    var devicePath := Some(0);
    ghost var q := p;
    while true
      invariant devicePath.Some? ==> IsPath(q) && HoldsAt(multi[..], devicePath.value, q)
      invariant SomePrefix(Visits(p), first) <==> devicePath.Some? && SomePrefix(Visits(q), first)
      decreases devicePath.Some?, |q|
    {
      var inst, next, size := DevicePathInstance(multi, devicePath, q);
      if inst == None {
        break;
      }
      NextVisit(q, first);
      PieceHasNoEnds(q, CAP);
      InstanceCompare(single[..], 0, FirstPart(s), multi[..], inst.value, Piece(q, CAP));
      assert single[..][0..] == single[..];
      assert multi[..][inst.value..inst.value + size] == multi[inst.value..inst.value + size];
      assert size <= single.Length ==> single[..][0..0 + size] == single[0..0 + size];
      var d := CompareMem(single, 0, multi, inst.value, size);
      if d == 0 {
        return true;
      }
      if next.Some? { q := After(q, CAP).value; }
      devicePath := next;
    }
    return false;
  }

  /** Within the cap: a match says that some instance of one path is a prefix of the other. */
  lemma MatchMeansPrefix(p: seq<Node>, s: seq<Node>)
    requires IsPath(p) && IsPath(s) && AllShort(Instances(p))
    ensures (exists i :: 0 <= i < |Visits(p)| && Visits(p)[i] <= Instances(s)[0]) <==>
            (exists i :: 0 <= i < |Instances(p)| && Instances(p)[i] <= s)
  {
    VisitsAreInstances(p);
    forall i | 0 <= i < |Instances(p)|
      ensures Instances(p)[i] <= Instances(s)[0] <==> Instances(p)[i] <= s
    {
      InstanceHasNoEnds(p, i);
      PrefixOfFirst(Instances(p)[i], s);
    }
  }

  lemma {:induction false} InstanceHasNoEnds(p: seq<Node>, i: nat)
    requires IsPath(p) && i < |Instances(p)|
    ensures NoEnds(Instances(p)[i])
    decreases |p|
  {
    if p[0].IsEnd() {
    } else if p[0].IsEndType() {
      if i > 0 { InstanceHasNoEnds(p[1..], i - 1); }
    } else {
      var r := Instances(p[1..]);
      InstanceHasNoEnds(p[1..], i);
      assert ([p[0]] + r[0])[1..] == r[0];
    }
  }

  lemma {:induction false} PrefixOfFirst(x: seq<Node>, s: seq<Node>)
    requires NoEnds(x) && Terminated(s)
    ensures x <= Instances(s)[0] <==> x <= s
    decreases |x|
  {
    if x == [] || s[0].IsEndType() {
    } else {
      PrefixOfFirst(x[1..], s[1..]);
      var r := Instances(s[1..]);
      assert Instances(s)[0] == [s[0]] + r[0] && s == [s[0]] + s[1..] && x == [x[0]] + x[1..];
    }
  }
}
