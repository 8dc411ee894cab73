/** EFI device paths: lists of nodes and their byte form (section 9.3.1 of UEFI 2.4). */
module DevicePath {
  import opened Common

  const END_TYPE: Byte := 0x7F
  const END_ENTIRE: Byte := 0xFF
  const END_INSTANCE: Byte := 0x01
  const HEADER: nat := 4

  datatype Node = Node(kind: Byte, sub: Byte, payload: seq<Byte>)
  {
    function Length(): nat { HEADER + |payload| }

    /** The length fits the two length bytes. */
    predicate Fits() { Length() < 0x1_0000 }

    /** The top bit of the type marks an unpacked node. */
    predicate IsEndType() { kind % 0x80 == END_TYPE }

    predicate IsEnd() { IsEndType() && sub == END_ENTIRE }

    /** What the library demands of a node: an end node is a bare end-of-instance or
        end-of-path marker. */
    predicate Ok() {
      Fits() && (IsEndType() ==> payload == [] && (sub == END_ENTIRE || sub == END_INSTANCE))
    }
  }

  const END_ENTIRE_NODE: Node := Node(END_TYPE, END_ENTIRE, [])
  const END_INSTANCE_NODE: Node := Node(END_TYPE, END_INSTANCE, [])

  function EncodeNode(n: Node): (m: seq<Byte>)
    ensures |m| == n.Length()
  {
    [n.kind, n.sub, n.Length() % 256, n.Length() / 256 % 256] + n.payload
  }

  function Size(p: seq<Node>): nat {
    if p == [] then 0 else p[0].Length() + Size(p[1..])
  }

  function Encode(p: seq<Node>): (m: seq<Byte>)
    ensures |m| == Size(p)
  {
    if p == [] then [] else EncodeNode(p[0]) + Encode(p[1..])
  }

  lemma {:induction false} EncodeConcat(p: seq<Node>, q: seq<Node>)
    ensures Size(p + q) == Size(p) + Size(q)
    ensures Encode(p + q) == Encode(p) + Encode(q)
  {
    if p == [] {
      assert p + q == q;
    } else {
      assert (p + q)[0] == p[0] && (p + q)[1..] == p[1..] + q;
      EncodeConcat(p[1..], q);
      assert EncodeNode(p[0]) + (Encode(p[1..]) + Encode(q)) == (EncodeNode(p[0]) + Encode(p[1..])) + Encode(q);
    }
  }

  lemma EncodeOne(n: Node)
    ensures Size([n]) == n.Length() && Encode([n]) == EncodeNode(n)
  {
    assert Encode([n]) == EncodeNode(n) + Encode([]);
    assert Size([n]) == n.Length() + Size([]);
  }

  /** A list that ends at its first end-of-path node. */
  predicate Terminated(p: seq<Node>) {
    && p != []
    && (if |p| == 1 then p[0].IsEnd() else !p[0].IsEnd() && Terminated(p[1..]))
  }

  predicate AllOk(p: seq<Node>) {
    p == [] || (p[0].Ok() && AllOk(p[1..]))
  }

  predicate AllFit(p: seq<Node>) {
    p == [] || (p[0].Fits() && AllFit(p[1..]))
  }

  /** A device path: one or more instances, with bare end nodes between and after them. */
  predicate IsPath(p: seq<Node>) {
    Terminated(p) && AllOk(p)
  }

  lemma {:induction false} OkFits(p: seq<Node>)
    requires AllOk(p)
    ensures AllFit(p)
  {
    if p == [] {
    } else {
      OkFits(p[1..]);
    }
  }

  // ----- Reading nodes in memory -----

  function LengthAt(m: seq<Byte>, o: nat): nat
    requires o + HEADER <= |m|
  {
    (m[o + 2] as int) + 256 * (m[o + 3] as int)
  }

  predicate EndTypeAt(m: seq<Byte>, o: nat)
    requires o + HEADER <= |m|
  {
    m[o] % 0x80 == END_TYPE
  }

  predicate EndAt(m: seq<Byte>, o: nat)
    requires o + HEADER <= |m|
  {
    EndTypeAt(m, o) && m[o + 1] == END_ENTIRE
  }

  /** The nodes `p` lie in `m` from offset `o` on. */
  predicate HoldsAt(m: seq<Byte>, o: nat, p: seq<Node>) {
    o + Size(p) <= |m| && m[o..o + Size(p)] == Encode(p)
  }

  /** One step of a walk: the header of the first node can be read, and the rest follows it. */
  lemma WalkStep(m: seq<Byte>, o: nat, p: seq<Node>)
    requires p != [] && p[0].Fits() && HoldsAt(m, o, p)
    ensures o + HEADER <= o + p[0].Length() <= |m|
    ensures m[o] == p[0].kind && m[o + 1] == p[0].sub && LengthAt(m, o) == p[0].Length()
    ensures m[o..o + p[0].Length()] == EncodeNode(p[0])
    ensures HoldsAt(m, o + p[0].Length(), p[1..])
  {
    var e, n := Encode(p), p[0].Length();
    assert e[..n] == EncodeNode(p[0]) && e[n..] == Encode(p[1..]);
    SubSlices(m, o, e, n);
    HeaderAt(m, o, p[0]);
  }

  lemma SubSlices(m: seq<Byte>, o: nat, e: seq<Byte>, n: nat)
    requires o + |e| <= |m| && m[o..o + |e|] == e && n <= |e|
    ensures m[o..o + n] == e[..n] && m[o + n..o + |e|] == e[n..]
  {
  }

  lemma HeaderAt(m: seq<Byte>, o: nat, n: Node)
    requires n.Fits() && o + n.Length() <= |m| && m[o..o + n.Length()] == EncodeNode(n)
    ensures m[o] == n.kind && m[o + 1] == n.sub && LengthAt(m, o) == n.Length()
  {
    var e := m[o..o + n.Length()];
    assert m[o] == e[0] && m[o + 1] == e[1] && m[o + 2] == e[2] && m[o + 3] == e[3];
  }

  // ----- Decoding -----

  /** Reads nodes from the front of `m` up to the first end-of-path node. */
  function Decode(m: seq<Byte>): Option<seq<Node>>
    decreases |m|
  {
    if |m| < HEADER then None
    else
      var n := LengthAt(m, 0);
      if n < HEADER || |m| < n then None
      else
        var node := Node(m[0], m[1], m[HEADER..n]);
        if node.IsEnd() then Some([node])
        else
          match Decode(m[n..])
          case None => None
          case Some(rest) => Some([node] + rest)
  }

  lemma HeaderOf(n: Node, m: seq<Byte>)
    requires n.Fits()
    ensures var a := EncodeNode(n) + m;
            LengthAt(a, 0) == n.Length() && a[0] == n.kind && a[1] == n.sub && a[HEADER..n.Length()] == n.payload
  {
    var a := EncodeNode(n) + m;
    assert a[2] == n.Length() % 256 && a[3] == n.Length() / 256;
  }

  lemma DecodeCons(n: Node, m: seq<Byte>)
    requires n.Fits()
    ensures Decode(EncodeNode(n) + m) ==
            if n.IsEnd() then Some([n]) else if Decode(m).Some? then Some([n] + Decode(m).value) else None
  {
    var a := EncodeNode(n) + m;
    HeaderOf(n, m);
    assert a[n.Length()..] == m;
  }

  /** What lies in memory is read back, whatever follows it. */
  lemma {:induction false} DecodeEncode(p: seq<Node>, tail: seq<Byte>)
    requires Terminated(p) && AllFit(p)
    ensures Decode(Encode(p) + tail) == Some(p)
  {
    var m := Encode(p[1..]) + tail;
    DecodeCons(p[0], m);
    assert Encode(p) + tail == EncodeNode(p[0]) + m;
    if |p| > 1 {
      DecodeEncode(p[1..], tail);
      assert p == [p[0]] + p[1..];
    } else {
      assert p == [p[0]];
    }
  }

  lemma HeaderBytes(m: seq<Byte>)
    requires HEADER <= |m| && HEADER <= LengthAt(m, 0) <= |m|
    ensures var node := Node(m[0], m[1], m[HEADER..LengthAt(m, 0)]);
            node.Fits() && EncodeNode(node) == m[..LengthAt(m, 0)]
  {
    var n := LengthAt(m, 0);
    assert n % 256 == m[2] && n / 256 == m[3];
  }

  /** Every node list that is read was written there: the two forms determine each other. */
  lemma {:induction false} EncodeDecode(m: seq<Byte>)
    requires Decode(m).Some?
    ensures Terminated(Decode(m).value) && AllFit(Decode(m).value) && Encode(Decode(m).value) <= m
    decreases |m|
  {
    hide Decode, LengthAt, EncodeNode, Encode;
    DecodeParts(m);
    var n := LengthAt(m, 0);
    var node := Node(m[0], m[1], m[HEADER..n]);
    HeaderBytes(m);
    EncodeOne(node);
    if node.IsEnd() {
    } else {
      var rest := Decode(m[n..]).value;
      EncodeDecode(m[n..]);
      EncodeConcat([node], rest);
      assert ([node] + rest)[1..] == rest;
      Prefixes(m, n, Encode(rest));
    }
  }

  lemma Prefixes(m: seq<Byte>, n: nat, e: seq<Byte>)
    requires n <= |m| && e <= m[n..]
    ensures m[..n] + e <= m
  {
    assert m == m[..n] + m[n..];
  }

  lemma DecodeParts(m: seq<Byte>)
    requires Decode(m).Some?
    ensures HEADER <= |m| && HEADER <= LengthAt(m, 0) <= |m|
    ensures var n := LengthAt(m, 0);
            var node := Node(m[0], m[1], m[HEADER..n]);
            if node.IsEnd() then Decode(m).value == [node]
            else Decode(m[n..]).Some? && Decode(m).value == [node] + Decode(m[n..]).value
  {
  }

  // ----- Instances -----

  /** The node lists between end nodes. */
  function Instances(p: seq<Node>): (r: seq<seq<Node>>)
    requires Terminated(p)
    ensures r != []
  {
    if p[0].IsEnd() then [[]]
    else if p[0].IsEndType() then [[]] + Instances(p[1..])
    else
      var r := Instances(p[1..]);
      [[p[0]] + r[0]] + r[1..]
  }

  /** Bytes of all instances, each with its end node. */
  function TotalSize(r: seq<seq<Node>>): nat {
    if r == [] then 0 else Size(r[0]) + HEADER + TotalSize(r[1..])
  }

  /** The instance sizes, plus an end node for each, make up the whole path. */
  lemma {:induction false} InstanceSizes(p: seq<Node>)
    requires IsPath(p)
    ensures TotalSize(Instances(p)) == Size(p)
  {
    if |p| == 1 {
      assert Instances(p)[1..] == [];
    } else {
      var r := Instances(p[1..]);
      InstanceSizes(p[1..]);
      if p[0].IsEndType() {
        assert Instances(p)[1..] == r;
      } else {
        assert ([p[0]] + r[0])[1..] == r[0] && Instances(p)[1..] == r[1..];
      }
    }
  }

  // ----- The walk of DevicePathInstance, with its cap -----

  /** The walk over one instance gives up at its 514th node (`Count > 01000`). */
  const CAP: nat := 513

  /** The nodes walked over before the walk stops. */
  function Piece(p: seq<Node>, cap: nat): seq<Node>
    requires Terminated(p)
  {
    if p[0].IsEndType() || cap == 0 then [] else [p[0]] + Piece(p[1..], cap - 1)
  }

  /** Where the next walk starts: behind the node this one stopped at, unless its subtype is
      that of an end of path. */
  function After(p: seq<Node>, cap: nat): (rest: Option<seq<Node>>)
    requires Terminated(p)
    ensures rest.Some? ==> Terminated(rest.value) && |rest.value| < |p|
  {
    if p[0].IsEndType() || cap == 0 then
      if p[0].sub == END_ENTIRE || |p| == 1 then None else Some(p[1..])
    else After(p[1..], cap - 1)
  }

  /** The pieces that repeated walks deliver. */
  function Visits(p: seq<Node>): (r: seq<seq<Node>>)
    requires Terminated(p)
    ensures r != []
    decreases |p|
  {
    match After(p, CAP)
    case None => [Piece(p, CAP)]
    case Some(rest) => [Piece(p, CAP)] + Visits(rest)
  }

  predicate AllShort(r: seq<seq<Node>>) {
    r == [] || (|r[0]| <= CAP && AllShort(r[1..]))
  }

  /** Within the cap, one walk delivers the first instance and leaves the others. */
  lemma {:induction false} PieceIsFirst(p: seq<Node>, cap: nat)
    requires Terminated(p)
    ensures |Piece(p, cap)| <= cap
    ensures |Instances(p)[0]| <= cap ==>
              && Piece(p, cap) == Instances(p)[0]
              && (if After(p, cap).None? then |Instances(p)| == 1
                  else Instances(p)[1..] == Instances(After(p, cap).value))
  {
    if p[0].IsEndType() {
    } else {
      var r := Instances(p[1..]);
      assert Instances(p)[1..] == r[1..];
      if cap > 0 { PieceIsFirst(p[1..], cap - 1); }
    }
  }

  /** The pieces are the instances exactly when no instance is longer than the cap. */
  lemma {:induction false} VisitsAreInstances(p: seq<Node>)
    requires Terminated(p)
    ensures Visits(p) == Instances(p) <==> AllShort(Instances(p))
    decreases |p|
  {
    var r := Instances(p);
    PieceIsFirst(p, CAP);
    assert Visits(p)[0] == Piece(p, CAP);
    if |r[0]| <= CAP {
      assert r == [r[0]] + r[1..];
      if After(p, CAP).Some? {
        VisitsAreInstances(After(p, CAP).value);
        assert Visits(p)[1..] == Visits(After(p, CAP).value);
      } else {
        assert r[1..] == [];
      }
    }
  }

  /** A path of one instance with `n` nodes. */
  function LongPath(n: nat): seq<Node> {
    if n == 0 then [END_ENTIRE_NODE] else [Node(1, 1, [])] + LongPath(n - 1)
  }

  lemma {:induction false} LongPathInstance(n: nat)
    ensures IsPath(LongPath(n)) && |Instances(LongPath(n))| == 1 && |Instances(LongPath(n))[0]| == n
  {
    var p := LongPath(n);
    if n == 0 {
      assert p[1..] == [];
    } else {
      LongPathInstance(n - 1);
      assert p[1..] == LongPath(n - 1);
    }
  }

  /** A path of one instance that repeated walks deliver in two pieces. */
  lemma LongInstanceSplit()
    ensures var p := LongPath(514); IsPath(p) && Visits(p) != Instances(p)
  {
    hide LongPath, Instances, Visits;
    LongPathInstance(514);
    VisitsAreInstances(LongPath(514));
  }

  /** A path of one instance of 513 nodes, which is still delivered whole. */
  lemma LongInstanceWhole()
    ensures IsPath(LongPath(513)) && Visits(LongPath(513)) == Instances(LongPath(513))
  {
    hide LongPath, Instances, Visits;
    LongPathInstance(513);
    VisitsAreInstances(LongPath(513));
    var r := Instances(LongPath(513));
    assert r[1..] == [];
  }

  // ----- Bytes and end nodes -----

  /** A node is its type, its subtype, its length in two bytes, low byte first, and its payload. */
  lemma NodeMeans(n: Node)
    ensures var e := EncodeNode(n);
            && |e| == 4 + |n.payload| && e[0] == n.kind && e[1] == n.sub && e[4..] == n.payload
            && (e[2] as int) + 0x100 * (e[3] as int) == (4 + |n.payload|) % 0x1_0000
  {
  }

  /** Instances put together, each but the last with an end of instance behind it, and the last
      with the end of the path. */
  function Joined(r: seq<seq<Node>>): seq<Node>
    requires r != []
  {
    r[0] + if |r| == 1 then [Node(0x7F, 0xFF, [])] else [Node(0x7F, 0x01, [])] + Joined(r[1..])
  }

  /** Reading them off again. */
  lemma {:induction false} InstancesOfJoined(r: seq<seq<Node>>)
    requires r != []
    requires forall i, j :: 0 <= i < |r| && 0 <= j < |r[i]| ==> r[i][j].kind % 0x80 != 0x7F
    requires forall i, j :: 0 <= i < |r| && 0 <= j < |r[i]| ==> 4 + |r[i][j].payload| < 0x1_0000
    ensures IsPath(Joined(r)) && Instances(Joined(r)) == r
    decreases |Joined(r)|
  {
    hide Joined;
    var p := Joined(r);
    if r[0] == [] {
      JoinedEmpty(r);
      if |r| == 1 {
        assert r == [[]];
        JoinedNothing();
      } else {
        InstancesOfJoined(r[1..]);
        assert [[]] + r[1..] == r;
      }
    } else {
      var t := [r[0][1..]] + r[1..];
      JoinedNode(r);
      assert forall j :: 0 <= j < |t[0]| ==> t[0][j] == r[0][j + 1];
      assert forall i :: 1 <= i < |t| ==> t[i] == r[i];
      InstancesOfJoined(t);
      assert t[0] == r[0][1..] && t[1..] == r[1..] && [r[0][0]] + r[0][1..] == r[0];
      assert [r[0]] + r[1..] == r;
    }
  }

  /** The first node of a joined path, and what is behind it. */
  lemma JoinedEmpty(r: seq<seq<Node>>)
    requires r != [] && r[0] == []
    ensures Joined(r) != []
    ensures |r| == 1 ==> Joined(r) == [Node(0x7F, 0xFF, [])]
    ensures |r| > 1 ==> Joined(r)[0] == Node(0x7F, 0x01, []) && Joined(r)[1..] == Joined(r[1..])
  {
    if |r| > 1 {
      var back := [Node(0x7F, 0x01, [])] + Joined(r[1..]);
      assert Joined(r) == [] + back == back;
    }
  }

  lemma JoinedNode(r: seq<seq<Node>>)
    requires r != [] && r[0] != []
    ensures Joined(r) != []
    ensures Joined(r)[0] == r[0][0] && Joined(r)[1..] == Joined([r[0][1..]] + r[1..])
  {
    var n, x, t := r[0][0], r[0][1..], [r[0][1..]] + r[1..];
    var back := if |r| == 1 then [Node(0x7F, 0xFF, [])] else [Node(0x7F, 0x01, [])] + Joined(r[1..]);
    assert t[1..] == r[1..] && r[0] == [n] + x;
    assert Joined(t) == x + back && Joined(r) == [n] + x + back;
    Behind(n, x, back);
  }

  lemma JoinedNothing()
    ensures var p := [Node(0x7F, 0xFF, [])]; IsPath(p) && Instances(p) == [[]]
  {
    var p := [Node(0x7F, 0xFF, [])];
    assert p[1..] == [];
  }

  lemma Behind(n: Node, x: seq<Node>, y: seq<Node>)
    ensures ([n] + x + y)[0] == n && ([n] + x + y)[1..] == x + y
  {
  }
}
