/** The routines of gnu-efi/lib/dpath.c that build new paths. */
module DevicePathAppend {
  import opened Common
  import opened DevicePath
  import opened DevicePathLib

  // ----- Appending instances -----

  /** The path with its end of path turned into an end of instance. */
  function Reopen(p: seq<Node>): (r: seq<Node>)
    requires Terminated(p)
    ensures |r| == |p|
  {
    if |p| == 1 then [p[0].(sub := END_INSTANCE)] else [p[0]] + Reopen(p[1..])
  }

  /** Reopening changes one byte: the subtype of the last node. */
  lemma {:induction false} ReopenByte(p: seq<Node>)
    requires IsPath(p)
    ensures Size(Reopen(p)) == Size(p) >= HEADER
    ensures Encode(Reopen(p)) == Encode(p)[Size(p) - HEADER + 1 := END_INSTANCE]
  {
    var r := Reopen(p);
    if |p| == 1 {
      EncodeOne(p[0]);
      EncodeOne(r[0]);
      assert p == [p[0]] && r == [r[0]];
    } else {
      ReopenByte(p[1..]);
      assert r[0] == p[0] && r[1..] == Reopen(p[1..]);
    }
  }

  /** A node put in front of a path joins its first instance, or closes an empty one. */
  function AddNode(n: Node, r: seq<seq<Node>>): seq<seq<Node>>
    requires r != []
  {
    if n.IsEndType() then [[]] + r else [[n] + r[0]] + r[1..]
  }

  lemma InstancesCons(p: seq<Node>, n: Node, t: seq<Node>)
    requires p == [n] + t && !n.IsEnd() && Terminated(t)
    ensures Terminated(p) && Instances(p) == AddNode(n, Instances(t))
  {
    assert p[1..] == t;
  }

  lemma AddNodeConcat(n: Node, r: seq<seq<Node>>, t: seq<seq<Node>>)
    requires r != []
    ensures AddNode(n, r + t) == AddNode(n, r) + t
  {
    if n.IsEndType() {
      assert [[]] + (r + t) == ([[]] + r) + t;
    } else {
      assert (r + t)[1..] == r[1..] + t;
    }
  }

  /** The result is a path, and its instances are those of the two paths in order. */
  lemma {:induction false} ReopenInstances(p: seq<Node>, q: seq<Node>)
    requires Terminated(p) && Terminated(q)
    ensures Terminated(Reopen(p) + q)
    ensures Instances(Reopen(p) + q) == Instances(p) + Instances(q)
  {
    hide AddNode, Instances, Terminated;
    var j := Reopen(p) + q;
    if |p| == 1 {
      SingleInstance(p);
      InstancesCons(j, p[0].(sub := END_INSTANCE), q);
      ClosedInstance(p[0].(sub := END_INSTANCE), Instances(q));
    } else {
      TailTerminated(p);
      ReopenInstances(p[1..], q);
      assert p == [p[0]] + p[1..] && j == [p[0]] + (Reopen(p[1..]) + q);
      InstancesCons(p, p[0], p[1..]);
      InstancesCons(j, p[0], Reopen(p[1..]) + q);
      AddNodeConcat(p[0], Instances(p[1..]), Instances(q));
    }
  }

  lemma SingleInstance(p: seq<Node>)
    requires Terminated(p) && |p| == 1
    ensures p[0].IsEndType() && Instances(p) == [[]]
  {
  }

  lemma ClosedInstance(n: Node, r: seq<seq<Node>>)
    requires r != [] && n.IsEndType()
    ensures AddNode(n, r) == [[]] + r
  {
  }

  lemma TailTerminated(p: seq<Node>)
    requires Terminated(p) && |p| > 1
    ensures !p[0].IsEnd() && Terminated(p[1..])
  {
  }

  lemma {:induction false} ReopenOk(p: seq<Node>, q: seq<Node>)
    requires AllOk(p) && AllOk(q) && Terminated(p)
    ensures AllOk(Reopen(p) + q)
  {
    var j := Reopen(p) + q;
    if |p| == 1 {
      assert j[1..] == q;
    } else {
      assert j[0] == p[0] && j[1..] == Reopen(p[1..]) + q;
      ReopenOk(p[1..], q);
    }
  }

  /** The end of path in `buf` becomes an end of instance; what follows stays. */
  method ReopenInPlace(buf: array<Byte>, ghost p: seq<Node>) returns (next: nat)
    requires IsPath(p) && HoldsAt(buf[..], 0, p)
    modifies buf
    ensures next == Size(p) <= buf.Length
    ensures buf[..] == Encode(Reopen(p)) + old(buf[next..])
  {
    hide Terminated, AllOk, Encode, EncodeNode, Size, Reopen;
    var devPath := FindEnd(buf, 0, p);
    ReopenByte(p);
    assert old(buf[..][0..Size(p)]) == Encode(p);
    buf[devPath + 1] := END_INSTANCE;
    assert buf[..] == old(buf[..])[devPath + 1 := END_INSTANCE];
    next := devPath + LengthAt(buf[..], devPath);
    UpdatePrefix(old(buf[..]), Encode(p), devPath + 1, END_INSTANCE);
  }

  lemma UpdatePrefix(m: seq<Byte>, e: seq<Byte>, i: nat, b: Byte)
    requires e <= m && i < |e|
    ensures m[i := b] == e[i := b] + m[|e|..]
  {
  }

  method AppendDevicePathInstance(src: array?<Byte>, inst: array<Byte>, granted: bool,
                                  ghost p: seq<Node>, ghost q: seq<Node>)
    returns (r: array?<Byte>)
    requires src != null ==> IsPath(p) && HoldsAt(src[..], 0, p) && granted
    requires IsPath(q) && HoldsAt(inst[..], 0, q)
    ensures r != null <==> granted
    ensures r != null ==> fresh(r) && r[..] == if src == null then Encode(q) else Encode(Reopen(p) + q)
  {
    hide Terminated, AllOk, Encode, EncodeNode, Size, Reopen;
    if src == null {
      r := DuplicateDevicePath(inst, 0, granted, q);
      return;
    }
    var srcSize := DevicePathSize(src, 0, p);
    var instanceSize := DevicePathSize(inst, 0, q);
    var ptr := new Byte[srcSize + instanceSize];
    CopyMem(ptr, 0, src, 0, srcSize);
    assert ptr[..][0..srcSize] == src[..][0..srcSize];
    var devPath := ReopenInPlace(ptr, p);
    assert ptr[..devPath] == Encode(Reopen(p));
    CopyMem(ptr, devPath, inst, 0, instanceSize);
    assert inst[0..instanceSize] == inst[..][0..instanceSize];
    EncodeConcat(Reopen(p), q);
    r := ptr;
  }

  // ----- Appending a path to every instance -----

  /** What the copying loop lays down: behind each instance the whole second path, its end of
      path included, and then an end node of the loop's own. */
  function Spread(v: seq<seq<Node>>, q: seq<Node>): seq<Node> {
    if v == [] then [] else v[0] + q + [if |v| == 1 then END_ENTIRE_NODE else END_INSTANCE_NODE] + Spread(v[1..], q)
  }

  /** The part laid down before the last end node is corrected. */
  function Laid(v: seq<seq<Node>>, q: seq<Node>): seq<Node> {
    if v == [] then [] else Laid(v[..|v| - 1], q) + v[|v| - 1] + q + [END_INSTANCE_NODE]
  }

  lemma LaidSnoc(v: seq<seq<Node>>, q: seq<Node>)
    requires v != []
    ensures Laid(v, q) == Laid(v[..|v| - 1], q) + (v[|v| - 1] + q + [END_INSTANCE_NODE])
  {
  }

  lemma {:induction false} LaidCons(v: seq<seq<Node>>, q: seq<Node>)
    requires v != []
    ensures Laid(v, q) == v[0] + q + [END_INSTANCE_NODE] + Laid(v[1..], q)
    decreases |v|
  {
    var n := |v| - 1;
    if n == 0 {
      LaidSnoc(v, q);
      assert v[..0] == [] && v[1..] == [];
    } else {
      LaidCons(v[..n], q);
      assert v[..n][1..] == v[1..][..n - 1];
      var x, y, z := v[0] + q + [END_INSTANCE_NODE], Laid(v[1..][..n - 1], q), v[n] + q + [END_INSTANCE_NODE];
      assert Laid(v[..n], q) == x + y;
      LaidSnoc(v, q);
      LaidSnoc(v[1..], q);
      assert (x + y) + z == x + (y + z);
    }
  }

  lemma {:induction false} SpreadIsLaid(v: seq<seq<Node>>, q: seq<Node>)
    requires v != []
    ensures var l := Laid(v, q); l != [] && Spread(v, q) == l[..|l| - 1] + [END_ENTIRE_NODE]
  {
    LaidCons(v, q);
    var x := v[0] + q;
    if |v| == 1 {
      assert Laid([], q) == [] && Spread([], q) == [];
      assert Laid(v, q) == x + [END_INSTANCE_NODE] && Spread(v, q) == x + [END_ENTIRE_NODE];
    } else {
      SpreadIsLaid(v[1..], q);
      var t := Laid(v[1..], q);
      assert Laid(v, q) == x + [END_INSTANCE_NODE] + t;
      assert (x + [END_INSTANCE_NODE] + t)[..|x| + |t|] == x + [END_INSTANCE_NODE] + t[..|t| - 1];
    }
  }

  /** A walk's piece, the node it stops at and what comes after it are parts of the path. */
  lemma {:induction false} PieceSize(p: seq<Node>, cap: nat)
    requires IsPath(p)
    ensures var rest := After(p, cap);
            Size(Piece(p, cap)) + HEADER + (if rest.Some? then Size(rest.value) else 0) <= Size(p)
  {
    if p[0].IsEndType() || cap == 0 {
    } else {
      PieceSize(p[1..], cap - 1);
      assert Piece(p, cap)[1..] == Piece(p[1..], cap - 1);
    }
  }

  lemma {:induction false} VisitsSize(p: seq<Node>)
    requires IsPath(p)
    ensures TotalSize(Visits(p)) <= Size(p)
    decreases |p|
  {
    hide Piece, After, Size;
    PieceSize(p, CAP);
    AfterOk(p, CAP);
    VisitsFirst(p);
    match After(p, CAP)
    case None => assert Visits(p)[1..] == [];
    case Some(rest) =>
      VisitsSize(rest);
      assert Visits(p)[1..] == Visits(rest);
  }

  /** The allocation the routine asks for holds what its loop writes. */
  ghost predicate HasRoom(p: seq<Node>, q: seq<Node>)
    requires Terminated(p)
  {
    TotalSize(Visits(p)) + |Visits(p)| * Size(q) <= Size(p) * |Visits(p)| + Size(q)
  }

  /** For one piece, or a second path no longer than the first, there is room. Within the cap there
      is room in no other case, and one instance fills the allocation exactly. */
  lemma AllocationFits(p: seq<Node>, q: seq<Node>)
    requires IsPath(p)
    ensures var v, room := Visits(p), Size(p) * |Visits(p)| + Size(q);
            && (Size(Spread(v, q)) <= room <==> HasRoom(p, q))
            && (|v| == 1 || Size(q) <= Size(p) ==> HasRoom(p, q))
            && (AllShort(Instances(p)) && HasRoom(p, q) ==> |v| == 1 || Size(q) <= Size(p))
            && (AllShort(Instances(p)) && |v| == 1 ==> Size(Spread(v, q)) == room)
  {
    hide Size, Encode, EncodeNode, Laid, Spread, Terminated, AllOk, Instances, Visits, AllShort;
    VisitsSize(p);
    VisitsAreInstances(p);
    InstanceSizes(p);
    CloseSpread(Visits(p), q);
    LaidTotal(Visits(p), q);
    Compare(Size(p), Size(q), |Visits(p)|);
  }

  /** Two paths for which the loop writes past its allocation: of two empty instances, and of one
      node with a one-byte payload. */
  lemma AllocationTooSmall()
    ensures var p, q := [END_INSTANCE_NODE, END_ENTIRE_NODE], [Node(1, 1, [0]), END_ENTIRE_NODE];
            IsPath(p) && IsPath(q) && !HasRoom(p, q)
  {
    var p, q := [END_INSTANCE_NODE, END_ENTIRE_NODE], [Node(1, 1, [0]), END_ENTIRE_NODE];
    TwoInstances();
    assert q[1..] == [END_ENTIRE_NODE] && [END_ENTIRE_NODE][1..] == [];
    VisitsAreInstances(p);
    AllocationFits(p, q);
  }

  lemma TwoInstances()
    ensures var p := [END_INSTANCE_NODE, END_ENTIRE_NODE];
            IsPath(p) && Size(p) == 8 && Instances(p) == [[], []] && AllShort(Instances(p))
  {
    var p := [END_INSTANCE_NODE, END_ENTIRE_NODE];
    assert p[1..] == [END_ENTIRE_NODE] && [END_ENTIRE_NODE][1..] == [];
    EncodeOne(END_ENTIRE_NODE);
    assert Size(p) == HEADER + Size([END_ENTIRE_NODE]);
    assert Instances([END_ENTIRE_NODE]) == [[]];
    var r: seq<seq<Node>> := [[], []];
    assert r[1..] == [[]];
  }

  lemma Compare(s1: nat, s2: nat, n: nat)
    requires n >= 1
    ensures s1 + n * s2 <= s1 * n + s2 <==> n == 1 || s2 <= s1
  {
    assert s1 * n + s2 - (s1 + n * s2) == (n - 1) * (s1 - s2);
  }

  lemma {:induction false} PieceOk(p: seq<Node>, cap: nat)
    requires IsPath(p)
    ensures AllOk(Piece(p, cap))
  {
    if p[0].IsEndType() || cap == 0 {
    } else {
      PieceOk(p[1..], cap - 1);
      assert Piece(p, cap)[1..] == Piece(p[1..], cap - 1);
    }
  }

  /** A reader of the result sees the first piece followed by the whole second path. */
  lemma SpreadDecodes(p: seq<Node>, q: seq<Node>, m: seq<Byte>)
    requires IsPath(p) && IsPath(q) && Encode(Spread(Visits(p), q)) <= m
    ensures IsPath(Piece(p, CAP) + q) && Decode(m) == Some(Piece(p, CAP) + q)
  {
    hide Piece, After, AllOk, Decode, EncodeNode, Visits;
    var v := Visits(p);
    VisitsFirst(p);
    var x := v[0] + q;
    var rest := [if |v| == 1 then END_ENTIRE_NODE else END_INSTANCE_NODE] + Spread(v[1..], q);
    assert Spread(v, q) == x + rest;
    EncodeConcat(x, rest);
    PieceHasNoEnds(p, CAP);
    PieceOk(p, CAP);
    NoEndsThenPath(v[0], q);
    Continues(m, Encode(Spread(v, q)), Encode(x), Encode(rest));
    DecodeEncode(x, Encode(rest) + m[|Encode(Spread(v, q))|..]);
  }

  lemma Continues(m: seq<Byte>, s: seq<Byte>, x: seq<Byte>, rest: seq<Byte>)
    requires s <= m && s == x + rest
    ensures m == x + (rest + m[|s|..])
  {
  }

  /** For a single instance within the cap, its nodes are followed by all of the second path. */
  lemma SingleDecodes(p: seq<Node>, q: seq<Node>, m: seq<Byte>)
    requires IsPath(p) && IsPath(q) && Encode(Spread(Visits(p), q)) <= m
    requires |Instances(p)| == 1 && |p| - 1 <= CAP
    ensures Decode(m) == Some(p[..|p| - 1] + q)
  {
    hide Decode, Spread, Encode, Visits;
    SpreadDecodes(p, q, m);
    OnlyInstance(p);
    PieceIsFirst(p, CAP);
  }

  lemma {:induction false} OnlyInstance(p: seq<Node>)
    requires Terminated(p) && |Instances(p)| == 1
    ensures Instances(p)[0] == p[..|p| - 1]
  {
    if p[0].IsEnd() {
      assert |p| == 1;
    } else {
      OnlyInstance(p[1..]);
      assert p[..|p| - 1] == [p[0]] + p[1..][..|p| - 2];
    }
  }

  lemma {:induction false} NoEndsThenPath(x: seq<Node>, q: seq<Node>)
    requires NoEnds(x) && AllOk(x) && IsPath(q)
    ensures IsPath(x + q) && AllFit(x + q)
    ensures Instances(x + q) == [x + Instances(q)[0]] + Instances(q)[1..]
  {
    if x == [] {
      assert x + q == q;
      OkFits(q);
      var r := Instances(q);
      assert [] + r[0] == r[0] && r == [r[0]] + r[1..];
    } else {
      var t := x[1..] + q;
      NoEndsThenPath(x[1..], q);
      assert x + q == [x[0]] + t && (x + q)[1..] == t;
      InstancesCons(x + q, x[0], t);
      assert [x[0]] + (x[1..] + Instances(q)[0]) == x + Instances(q)[0];
    }
  }

  /** What the routine's comment promises: the second path behind every instance of the first,
      where its own first instance continues that instance and its others follow. */
  function Promised(v: seq<seq<Node>>, b: seq<seq<Node>>): seq<seq<Node>>
    requires b != []
  {
    if v == [] then [] else [v[0] + b[0]] + b[1..] + Promised(v[1..], b)
  }

  /** The promise is kept exactly when the first path has a single instance within the cap: a
      second instance is hidden by the end of path copied from the second path, and of a longer
      instance only a part is copied. */
  lemma PromiseIffSingle(p: seq<Node>, q: seq<Node>, m: seq<Byte>)
    requires IsPath(p) && IsPath(q) && Encode(Spread(Visits(p), q)) <= m
    ensures Decode(m).Some? && Terminated(Decode(m).value)
    ensures Instances(Decode(m).value) == Promised(Instances(p), Instances(q))
            <==> |Instances(p)| == 1 && |Instances(p)[0]| <= CAP
  {
    hide Decode, Encode, Spread, Visits, Piece, Promised;
    var v, b, x := Instances(p), Instances(q), Piece(p, CAP);
    SpreadDecodes(p, q, m);
    PieceHasNoEnds(p, CAP);
    PieceOk(p, CAP);
    NoEndsThenPath(x, q);
    var r := [x + b[0]] + b[1..];
    assert Instances(x + q) == r;
    PromisedLength(v, b);
    PieceIsFirst(p, CAP);
    if |v| == 1 {
      PromisedOne(v, b);
      assert r[0] == x + b[0] && ([v[0] + b[0]] + b[1..])[0] == v[0] + b[0];
      assert x + b[0] == v[0] + b[0] ==> |x + b[0]| == |v[0] + b[0]|;
    }
  }

  /** A Src1 of two empty instances, for which the promise is broken whatever Src2 is. */
  lemma PromiseBroken(q: seq<Node>, m: seq<Byte>)
    requires var p := [END_INSTANCE_NODE, END_ENTIRE_NODE];
             IsPath(p) && IsPath(q) && Encode(Spread(Visits(p), q)) <= m
    ensures var p := [END_INSTANCE_NODE, END_ENTIRE_NODE];
            && Decode(m).Some? && Terminated(Decode(m).value)
            && Instances(Decode(m).value) != Promised(Instances(p), Instances(q))
  {
    hide Decode, Encode, Spread, Visits, Instances, Promised;
    TwoInstances();
    PromiseIffSingle([END_INSTANCE_NODE, END_ENTIRE_NODE], q, m);
  }

  lemma PromisedOne(v: seq<seq<Node>>, b: seq<seq<Node>>)
    requires |v| == 1 && b != []
    ensures Promised(v, b) == [v[0] + b[0]] + b[1..]
  {
    assert Promised(v[1..], b) == [];
  }

  lemma {:induction false} PromisedLength(v: seq<seq<Node>>, b: seq<seq<Node>>)
    requires b != []
    ensures |Promised(v, b)| >= |v|
    ensures v != [] ==> |Promised(v, b)| >= |b|
    ensures |v| > 1 ==> |Promised(v, b)| > |b|
  {
    if v == [] {
    } else {
      PromisedLength(v[1..], b);
    }
  }

  /** Copies one of the library's two constant end nodes. */
  method PutEndNode(dst: array<Byte>, o: nat, n: Node)
    requires n.payload == [] && o + HEADER <= dst.Length
    modifies dst
    ensures dst[..] == old(dst[..o]) + EncodeNode(n) + old(dst[o + HEADER..])
  {
    dst[o], dst[o + 1], dst[o + 2], dst[o + 3] := n.kind, n.sub, HEADER, 0;
  }

  /** One round of the copying loop. */
  method AppendOne(dst: array<Byte>, pos: nat, src1: array<Byte>, inst: nat, size: nat, src2: array<Byte>, size2: nat,
                   ghost done: seq<Node>, ghost x: seq<Node>, ghost q: seq<Node>) returns (pos': nat)
    requires dst != src1 && dst != src2
    requires HoldsAt(src1[..], inst, x) && size == Size(x) && HoldsAt(src2[..], 0, q) && size2 == Size(q)
    requires pos + size + size2 + HEADER <= dst.Length && pos == Size(done) && dst[..pos] == Encode(done)
    modifies dst
    ensures pos' == pos + size + size2 + HEADER
    ensures var all := done + x + q + [END_INSTANCE_NODE]; dst[..pos'] == Encode(all) && pos' == Size(all)
  {
    hide Encode, EncodeNode, Size;
    CopyMem(dst, pos, src1, inst, size);
    assert src1[..][inst..inst + size] == src1[inst..inst + size];
    EncodeConcat(done, x);
    pos' := pos + size;
    assert dst[..pos'] == Encode(done + x);
    CopyMem(dst, pos', src2, 0, size2);
    assert src2[..][0..size2] == src2[0..size2];
    EncodeConcat(done + x, q);
    pos' := pos' + size2;
    assert dst[..pos'] == Encode(done + x + q);
    PutEndNode(dst, pos', END_INSTANCE_NODE);
    EncodeConcat(done + x + q, [END_INSTANCE_NODE]);
    EncodeOne(END_INSTANCE_NODE);
    pos' := pos' + HEADER;
  }

  lemma LaidOn(v: seq<seq<Node>>, x: seq<Node>, q: seq<Node>)
    ensures Laid(v + [x], q) == Laid(v, q) + x + q + [END_INSTANCE_NODE]
  {
    assert (v + [x])[..|v|] == v;
  }

  lemma LaidNothing(q: seq<Node>)
    ensures Laid([], q) == [] && Size([]) == 0 && Encode([]) == []
  {
  }

  lemma VisitsFirst(p: seq<Node>)
    requires Terminated(p)
    ensures Visits(p) == [Piece(p, CAP)] + if After(p, CAP).Some? then Visits(After(p, CAP).value) else []
  {
  }

  lemma {:induction false} TotalSizeConcat(a: seq<seq<Node>>, b: seq<seq<Node>>)
    ensures TotalSize(a + b) == TotalSize(a) + TotalSize(b)
  {
    if a == [] {
      assert a + b == b;
    } else {
      assert (a + b)[0] == a[0] && (a + b)[1..] == a[1..] + b;
      TotalSizeConcat(a[1..], b);
    }
  }

  lemma LaidFirst(v: seq<seq<Node>>, q: seq<Node>)
    requires v != []
    ensures Size(Laid(v, q)) == Size(v[0]) + Size(q) + HEADER + Size(Laid(v[1..], q))
  {
    hide Size, Encode, Laid;
    LaidCons(v, q);
    EncodeConcat(v[0] + q + [END_INSTANCE_NODE], Laid(v[1..], q));
    EncodeConcat(v[0] + q, [END_INSTANCE_NODE]);
    EncodeConcat(v[0], q);
    EncodeOne(END_INSTANCE_NODE);
  }

  lemma {:induction false} LaidTotal(v: seq<seq<Node>>, q: seq<Node>)
    ensures Size(Laid(v, q)) == TotalSize(v) + |v| * Size(q)
  {
    if v == [] {
    } else {
      LaidFirst(v, q);
      LaidTotal(v[1..], q);
      assert |v| * Size(q) == Size(q) + (|v| - 1) * Size(q);
    }
  }

  lemma TotalSizeOne(x: seq<Node>)
    ensures TotalSize([x]) == Size(x) + HEADER
  {
    assert TotalSize([x]) == Size(x) + HEADER + TotalSize([]);
  }

  /** While a piece is still to come, its round fits into the allocation. */
  lemma RoomForNext(p: seq<Node>, q: seq<Node>, done: seq<seq<Node>>, x: seq<Node>, more: seq<seq<Node>>)
    requires Terminated(p) && Visits(p) == done + [x] + more && HasRoom(p, q)
    ensures Size(Laid(done, q)) + Size(x) + Size(q) + HEADER <= Size(p) * |Visits(p)| + Size(q)
  {
    hide Size, Laid, Visits, Terminated, TotalSize;
    TotalSizeOne(x);
    TotalSizeConcat(done + [x], more);
    TotalSizeConcat(done, [x]);
    LaidTotal(done, q);
    RoundsFit(TotalSize(done), Size(x), TotalSize(more), |done|, |Visits(p)|, Size(q));
  }

  lemma RoundsFit(before: nat, x: nat, after: nat, d: nat, n: nat, s2: nat)
    requires d + 1 <= n
    ensures before + d * s2 + x + s2 + HEADER <= before + (x + HEADER) + after + n * s2
  {
    Scale2(d + 1, n, s2);
    assert (d + 1) * s2 == d * s2 + s2;
  }

  lemma Scale2(m: nat, n: nat, a: nat)
    requires m <= n
    ensures m * a <= n * a
  {
  }

  /** Correcting the last end node turns what was laid down into the result. */
  lemma CloseSpread(v: seq<seq<Node>>, q: seq<Node>)
    requires v != []
    ensures Size(Spread(v, q)) == Size(Laid(v, q)) >= HEADER
    ensures Encode(Spread(v, q)) == Encode(Laid(v, q))[..Size(Laid(v, q)) - HEADER] + EncodeNode(END_ENTIRE_NODE)
  {
    hide Size, Encode, EncodeNode, Spread, Laid;
    SpreadIsLaid(v, q);
    LaidSnoc(v, q);
    var l := Laid(v, q);
    var h := l[..|l| - 1];
    assert l == h + [END_INSTANCE_NODE];
    EncodeConcat(h, [END_INSTANCE_NODE]);
    EncodeConcat(h, [END_ENTIRE_NODE]);
    EncodeOne(END_INSTANCE_NODE);
    EncodeOne(END_ENTIRE_NODE);
  }

  method AppendDevicePath(src1: array?<Byte>, src2: array?<Byte>, granted: bool, ghost p: seq<Node>, ghost q: seq<Node>)
    returns (r: array?<Byte>)
    requires src1 != null || src2 != null
    requires src1 != null ==> IsPath(p) && HoldsAt(src1[..], 0, p)
    requires src2 != null ==> IsPath(q) && HoldsAt(src2[..], 0, q)
    requires src1 != null && src2 != null ==> HasRoom(p, q)
    ensures r != null <==> granted
    ensures r != null ==> fresh(r)
    ensures r != null && src1 == null ==> r[..] == Encode(q)
    ensures r != null && src2 == null ==> r[..] == Encode(p)
    ensures r != null && src1 != null && src2 != null ==>
              && r.Length == Size(p) * |Visits(p)| + Size(q)
              && Encode(Spread(Visits(p), q)) <= r[..]
  {
    hide Terminated, AllOk, Encode, EncodeNode, Size, Laid, Spread, Piece, After, Visits, HasRoom;
    if src1 == null {
      r := DuplicateDevicePath(src2, 0, granted, q);
      return;
    }
    if src2 == null {
      r := DuplicateDevicePath(src1, 0, granted, p);
      return;
    }
    var src1Size := DevicePathSize(src1, 0, p);
    var src1Inst := DevicePathInstanceCount(src1, Some(0), p);
    var src2Size := DevicePathSize(src2, 0, q);
    if !granted {
      return null;
    }
    var dst := new Byte[src1Size * src1Inst + src2Size];
    AppendLoop(dst, src1, src2, src2Size, p, q);
    r := dst;
  }

  method AppendLoop(dst: array<Byte>, src1: array<Byte>, src2: array<Byte>, src2Size: nat,
                    ghost p: seq<Node>, ghost q: seq<Node>)
    requires dst != src1 && dst != src2
    requires IsPath(p) && HoldsAt(src1[..], 0, p) && HoldsAt(src2[..], 0, q) && src2Size == Size(q)
    requires HasRoom(p, q) && dst.Length == Size(p) * |Visits(p)| + Size(q)
    modifies dst
    ensures Encode(Spread(Visits(p), q)) <= dst[..]
  {
    hide Terminated, AllOk, Encode, EncodeNode, Size, Laid, Spread, Piece, After, Visits, HasRoom, HoldsAt;
    ghost var v := Visits(p);
    ghost var done: seq<seq<Node>>, rest := [], p;
    var devicePath, dstPos := Some(0), 0;
    LaidNothing(q);
    while true
      invariant devicePath.Some? ==> IsPath(rest) && HoldsAt(src1[..], devicePath.value, rest)
      invariant v == done + if devicePath.Some? then Visits(rest) else []
      invariant dstPos == Size(Laid(done, q)) <= dst.Length && dst[..dstPos] == Encode(Laid(done, q))
      decreases devicePath.Some?, |rest|
    {
      var inst, next, size := DevicePathInstance(src1, devicePath, rest);
      if inst == None {
        break;
      }
      VisitsFirst(rest);
      ghost var x := Piece(rest, CAP);
      RoomForNext(p, q, done, x, if next.Some? then Visits(After(rest, CAP).value) else []);
      dstPos := AppendOne(dst, dstPos, src1, inst.value, size, src2, src2Size, Laid(done, q), x, q);
      LaidOn(done, x, q);
      done := done + [x];
      if next.Some? { rest := After(rest, CAP).value; }
      devicePath := next;
    }
    assert done == v;
    CorrectLast(dst, dstPos, v, q);
  }

  method CorrectLast(dst: array<Byte>, dstPos: nat, ghost v: seq<seq<Node>>, ghost q: seq<Node>)
    requires v != [] && dstPos == Size(Laid(v, q)) <= dst.Length && dst[..dstPos] == Encode(Laid(v, q))
    modifies dst
    ensures Encode(Spread(v, q)) <= dst[..]
  {
    hide Size, Encode, EncodeNode, Spread, Laid;
    CloseSpread(v, q);
    var last := dstPos - HEADER;
    assert dst[..last] == dst[..dstPos][..last];
    PutEndNode(dst, last, END_ENTIRE_NODE);
  }

  lemma OneNodePath(n: Node)
    requires n.Ok() && !n.IsEndType()
    ensures IsPath([n, END_ENTIRE_NODE]) && Encode([n, END_ENTIRE_NODE]) == EncodeNode(n) + EncodeNode(END_ENTIRE_NODE)
    ensures Size([n, END_ENTIRE_NODE]) == n.Length() + HEADER
  {
    var q := [n, END_ENTIRE_NODE];
    assert q[1..] == [END_ENTIRE_NODE];
    EncodeOne(END_ENTIRE_NODE);
    assert [END_ENTIRE_NODE][1..] == [];
  }

  method AppendDevicePathNode(src1: array?<Byte>, src2: array<Byte>, grantedTemp: bool, granted: bool,
                              ghost p: seq<Node>, ghost n: Node)
    returns (r: array?<Byte>)
    requires src1 != null ==> IsPath(p) && HoldsAt(src1[..], 0, p)
    requires n.Ok() && !n.IsEndType() && HoldsAt(src2[..], 0, [n])
    requires src1 != null ==> HasRoom(p, [n, END_ENTIRE_NODE])
    ensures r != null <==> grantedTemp && granted
    ensures r != null ==> fresh(r)
    ensures r != null && src1 == null ==> r[..] == Encode([n, END_ENTIRE_NODE])
    ensures r != null && src1 != null ==>
              && r.Length == Size(p) * |Visits(p)| + n.Length() + HEADER
              && Encode(Spread(Visits(p), [n, END_ENTIRE_NODE])) <= r[..]
  {
    hide Terminated, AllOk, HasRoom, Visits, Spread, Encode, Size, EncodeNode;
    OneNodePath(n);
    WalkStep(src2[..], 0, [n]);
    var length := LengthAt(src2[..], 0);
    if !grantedTemp {
      return null;
    }
    var temp := new Byte[length + HEADER];
    CopyMem(temp, 0, src2, 0, length);
    assert src2[..][0..length] == src2[0..length];
    PutEndNode(temp, length, END_ENTIRE_NODE);
    assert temp[..][0..length + HEADER] == Encode([n, END_ENTIRE_NODE]);
    r := AppendDevicePath(src1, temp, granted, p, [n, END_ENTIRE_NODE]);
  }
}
