/** UnpackDevicePath of gnu-efi/lib/dpath.c: every node realigned and marked as unpacked. */
module DevicePathUnpack {
  import opened Common
  import opened DevicePath
  import opened DevicePathLib

  /** MIN_ALIGNMENT_SIZE on x86_64. */
  const ALIGN: nat := 4

  function AlignSize(n: nat): (pad: nat)
    ensures pad < ALIGN && (n + pad) % ALIGN == 0
  {
    if n % ALIGN != 0 then ALIGN - n % ALIGN else 0
  }

  function SetUnpacked(kind: Byte): Byte {
    if kind < 0x80 then kind + 0x80 else kind
  }

  function ZeroBytes(n: nat): (z: seq<Byte>)
    ensures |z| == n && forall i :: 0 <= i < n ==> z[i] == 0
  {
    seq(n, _ => 0)
  }

  /** The realigned node: same subtype and payload, zero padding, top bit of the type set. */
  function UnpackNode(n: Node): Node {
    Node(SetUnpacked(n.kind), n.sub, n.payload + ZeroBytes(AlignSize(n.Length())))
  }

  function Unpack(p: seq<Node>): seq<Node> {
    if p == [] then [] else [UnpackNode(p[0])] + Unpack(p[1..])
  }

  lemma NodeAligned(n: Node)
    ensures UnpackNode(n).Length() % ALIGN == 0
  {
  }

  /** Every node of the result starts and ends on an aligned offset. */
  lemma {:induction false} UnpackAligned(p: seq<Node>, k: nat)
    requires k <= |p|
    ensures |Unpack(p)| == |p| && Size(Unpack(p)[..k]) % ALIGN == 0
  {
    hide UnpackNode;
    if p == [] {
    } else {
      NodeAligned(p[0]);
      UnpackAligned(p[1..], if k == 0 then 0 else k - 1);
      if k > 0 {
        assert Unpack(p)[..k][0] == UnpackNode(p[0]) && Unpack(p)[..k][1..] == Unpack(p[1..])[..k - 1];
      }
    }
  }

  lemma UnpackNodeTwice(n: Node)
    ensures UnpackNode(UnpackNode(n)) == UnpackNode(n)
  {
    var u := UnpackNode(n);
    assert AlignSize(u.Length()) == 0 && u.payload + ZeroBytes(0) == u.payload;
  }

  /** Unpacking twice is unpacking once. */
  lemma {:induction false} UnpackTwice(p: seq<Node>)
    ensures Unpack(Unpack(p)) == Unpack(p)
  {
    if p == [] {
    } else {
      UnpackNodeTwice(p[0]);
      UnpackTwice(p[1..]);
      assert Unpack(p)[1..] == Unpack(p[1..]);
    }
  }

  lemma UnpackKeepsEnds(n: Node)
    requires n.Ok()
    ensures UnpackNode(n).IsEndType() == n.IsEndType() && UnpackNode(n).IsEnd() == n.IsEnd()
    ensures n.IsEndType() ==> UnpackNode(n).Ok()
  {
    assert n.payload == [] ==> n.payload + ZeroBytes(0) == [];
  }

  lemma {:induction false} UnpackTerminated(p: seq<Node>)
    requires IsPath(p)
    ensures Terminated(Unpack(p))
    ensures AllFit(Unpack(p)) ==> AllOk(Unpack(p))
  {
    UnpackKeepsEnds(p[0]);
    var u := Unpack(p);
    assert u[0] == UnpackNode(p[0]) && u[1..] == Unpack(p[1..]);
    if |p| > 1 {
      UnpackTerminated(p[1..]);
    } else {
      assert Unpack(p[1..]) == [];
    }
  }

  /** The instances of the result are the unpacked instances. */
  function UnpackAll(r: seq<seq<Node>>): seq<seq<Node>> {
    if r == [] then [] else [Unpack(r[0])] + UnpackAll(r[1..])
  }

  lemma {:induction false} UnpackInstances(p: seq<Node>)
    requires IsPath(p)
    ensures Terminated(Unpack(p)) && Instances(Unpack(p)) == UnpackAll(Instances(p))
  {
    UnpackKeepsEnds(p[0]);
    var u := Unpack(p);
    assert u[0] == UnpackNode(p[0]) && u[1..] == Unpack(p[1..]);
    if p[0].IsEnd() {
      assert Unpack(p[1..]) == [] && UnpackAll([[]]) == [[]] + UnpackAll([]);
    } else {
      UnpackInstances(p[1..]);
      var r := Instances(p[1..]);
      if p[0].IsEndType() {
        assert ([[]] + r)[1..] == r;
      } else {
        assert ([[p[0]] + r[0]] + r[1..])[1..] == r[1..] && ([p[0]] + r[0])[1..] == r[0];
        assert Unpack([p[0]] + r[0]) == [UnpackNode(p[0])] + Unpack(r[0]);
      }
    }
  }

  // ----- What unpacking does to a node and its bytes -----

  /** The type keeps its low bits and gets the top one, the payload is followed by zeros, and the
      length is the next multiple of four. */
  lemma {:induction false} UnpackMeans(p: seq<Node>, i: nat)
    requires i < |p|
    ensures |Unpack(p)| == |p|
    ensures var n, u := p[i], Unpack(p)[i];
            && u.kind == 0x80 + n.kind % 0x80 && u.sub == n.sub
            && n.payload <= u.payload && forall j :: |n.payload| <= j < |u.payload| ==> u.payload[j] == 0
    ensures 4 + |Unpack(p)[i].payload| == (4 + |p[i].payload| + 3) / 4 * 4
    decreases |p|
  {
    UnpackAligned(p, 0);
    if i == 0 {
    } else {
      UnpackMeans(p[1..], i - 1);
    }
  }

  /** Where node `i` begins in the result. */
  function Begin(p: seq<Node>, i: nat): nat
    requires i <= |p|
  {
    if i == 0 then 0 else Begin(p, i - 1) + (4 + |p[i - 1].payload| + 3) / 4 * 4
  }

  lemma {:induction false} BeginIsSize(p: seq<Node>, i: nat)
    requires i <= |p|
    ensures |Unpack(p)| == |p| && Begin(p, i) == Size(Unpack(p)[..i])
    decreases i
  {
    hide Unpack, Size;
    UnpackAligned(p, 0);
    var u := Unpack(p);
    if i == 0 {
      NothingHasSize(u[..0]);
    } else {
      BeginIsSize(p, i - 1);
      UnpackMeans(p, i - 1);
      assert u[..i] == u[..i - 1] + [u[i - 1]];
      EncodeConcat(u[..i - 1], [u[i - 1]]);
      EncodeOne(u[i - 1]);
    }
  }

  lemma NothingHasSize(p: seq<Node>)
    requires p == []
    ensures Size(p) == 0
  {
  }

  /** The bytes of node `i` of a list. */
  lemma NodeInside(u: seq<Node>, i: nat, o: nat)
    requires i < |u| && o == Size(u[..i])
    ensures o + u[i].Length() <= |Encode(u)| && Encode(u)[o..o + u[i].Length()] == EncodeNode(u[i])
  {
    hide Encode, Size, EncodeNode;
    var a, b := u[..i], u[i + 1..];
    assert u == a + ([u[i]] + b);
    EncodeConcat(a, [u[i]] + b);
    EncodeConcat([u[i]], b);
    EncodeOne(u[i]);
    assert Encode(u) == Encode(a) + (EncodeNode(u[i]) + Encode(b));
  }

  /** The bytes of node `i` of the result, one by one. */
  lemma UnpackedBytesMean(p: seq<Node>, i: nat)
    requires i < |p|
    ensures var m, o, l, n := Encode(Unpack(p)), Begin(p, i), |p[i].payload|, (4 + |p[i].payload| + 3) / 4 * 4;
            && o + n <= |m| && m[o] == 0x80 + p[i].kind % 0x80 && m[o + 1] == p[i].sub
            && (m[o + 2] as int) + 0x100 * (m[o + 3] as int) == n % 0x1_0000
            && m[o + 4..o + 4 + l] == p[i].payload && forall j :: o + 4 + l <= j < o + n ==> m[j] == 0
  {
    hide Unpack, Encode, Size, Begin, EncodeNode;
    BeginIsSize(p, i);
    UnpackMeans(p, i);
    var m, o, u := Encode(Unpack(p)), Begin(p, i), Unpack(p)[i];
    NodeInside(Unpack(p), i, o);
    OneByOne(m, o, u, |p[i].payload|);
    assert u.payload[..|p[i].payload|] == p[i].payload;
  }

  /** The layout of a node: type, subtype, the length in two bytes, low byte first, payload. */
  lemma OneByOne(m: seq<Byte>, o: nat, u: Node, l: nat)
    requires o + u.Length() <= |m| && m[o..o + u.Length()] == EncodeNode(u) && l <= |u.payload|
    ensures m[o] == u.kind && m[o + 1] == u.sub
    ensures (m[o + 2] as int) + 0x100 * (m[o + 3] as int) == (4 + |u.payload|) % 0x1_0000
    ensures m[o + 4..o + 4 + l] == u.payload[..l]
    ensures forall j :: o + 4 + l <= j < o + 4 + |u.payload| ==> m[j] == u.payload[j - o - 4]
  {
    hide EncodeNode;
    NodeMeans(u);
    var e := m[o..o + u.Length()];
    assert m[o] == e[0] && m[o + 1] == e[1] && m[o + 2] == e[2] && m[o + 3] == e[3];
    assert m[o + 4..o + u.Length()] == e[4..];
    PayloadParts(m, o + 4, u.payload, l);
  }

  lemma PayloadParts(m: seq<Byte>, o: nat, x: seq<Byte>, l: nat)
    requires o + |x| <= |m| && m[o..o + |x|] == x && l <= |x|
    ensures m[o..o + l] == x[..l]
    ensures forall j :: o + l <= j < o + |x| ==> m[j] == x[j - o]
  {
    var y := m[o..o + |x|];
    assert m[o..o + l] == y[..l];
    assert forall j :: 0 <= j < |x| ==> m[o + j] == y[j];
  }

  // ----- When the rounded lengths fit -----

  lemma LastFits(p: seq<Node>)
    requires IsPath(p) && |p| == 1
    ensures AllFit(Unpack(p))
  {
    assert Unpack(p)[1..] == Unpack(p[1..]) == [];
  }

  /** The largest length that rounds up to no more than 16 bits hold. */
  const LONGEST: nat := 0xFFFC

  lemma FitsIff(n: Node)
    requires n.Fits()
    ensures UnpackNode(n).Fits() <==> n.Length() <= LONGEST
    ensures n.Length() > LONGEST ==> UnpackNode(n).Length() == 0x1_0000
  {
    var q := n.Length() / 4;
    assert n.Length() == 4 * q + n.Length() % 4;
  }

  lemma {:induction false} AllFitIff(p: seq<Node>)
    requires AllFit(p)
    ensures AllFit(Unpack(p)) <==> forall i :: 0 <= i < |p| ==> p[i].Length() <= LONGEST
  {
    hide UnpackNode;
    if p == [] {
    } else {
      FitsIff(p[0]);
      AllFitIff(p[1..]);
      assert Unpack(p)[1..] == Unpack(p[1..]);
      assert forall i :: 0 <= i < |p| ==> i == 0 || p[i] == p[1..][i - 1];
    }
  }

  lemma {:induction false} Unreadable(p: seq<Node>, tail: seq<Byte>)
    requires IsPath(p) && !AllFit(Unpack(p))
    ensures Decode(Encode(Unpack(p)) + tail) == None
  {
    var n, m := UnpackNode(p[0]), Encode(Unpack(p[1..])) + tail;
    assert Unpack(p)[0] == n && Unpack(p)[1..] == Unpack(p[1..]);
    assert Encode(Unpack(p)) + tail == EncodeNode(n) + m;
    UnpackKeepsEnds(p[0]);
    if |p| == 1 { LastFits(p); }
    if n.Fits() {
      Unreadable(p[1..], tail);
      DecodeCons(n, m);
    } else {
      FitsIff(p[0]);
      assert LengthAt(EncodeNode(n) + m, 0) == 0;
    }
  }

  /** A length above 65532 rounds up to 65536, is stored as zero, and nothing can be read. */
  lemma OverflowUnreadable(p: seq<Node>, i: nat, tail: seq<Byte>)
    requires IsPath(p) && i < |p| && p[i].Length() > LONGEST
    ensures Decode(Encode(Unpack(p)) + tail) == None
  {
    OkFits(p);
    AllFitIff(p);
    Unreadable(p, tail);
  }

  /** The result reads back as the unpacked nodes exactly when no node of the input is longer than
      65532 bytes. */
  lemma UnpackReadable(p: seq<Node>)
    requires IsPath(p)
    ensures Decode(Encode(Unpack(p))) == Some(Unpack(p)) <==> forall i :: 0 <= i < |p| ==> p[i].Length() <= LONGEST
  {
    hide Unpack, Decode, Encode;
    assert Encode(Unpack(p)) + [] == Encode(Unpack(p));
    UnpackTerminated(p);
    OkFits(p);
    AllFitIff(p);
    if AllFit(Unpack(p)) {
      DecodeEncode(Unpack(p), []);
    } else {
      Unreadable(p, []);
    }
  }

  /** A path with a node of 65533 bytes, whose unpacked form cannot be read. */
  lemma LongNodeUnreadable(n: Node)
    requires n == Node(1, 1, ZeroBytes(0xFFFD - HEADER))
    ensures var p := [n, END_ENTIRE_NODE]; IsPath(p) && Decode(Encode(Unpack(p))) == None
  {
    hide ZeroBytes;
    var p := [n, END_ENTIRE_NODE];
    assert p[1..] == [END_ENTIRE_NODE] && [END_ENTIRE_NODE][1..] == [];
    assert n.Length() == 0xFFFD;
    OverflowUnreadable(p, 0, []);
    assert Encode(Unpack(p)) + [] == Encode(Unpack(p));
  }

  // ----- The routine -----

  lemma SameAlign(size: nat, n: nat)
    requires size % ALIGN == 0
    ensures AlignSize(size + n) == AlignSize(n)
  {
    ModShift(size / ALIGN, n);
  }

  lemma ModShift(k: nat, n: nat)
    ensures (4 * k + n) % 4 == n % 4
  {
  }

  lemma UnpackGrows(done: seq<Node>, n: Node)
    ensures Size(Unpack(done + [n])) == Size(Unpack(done)) + UnpackNode(n).Length()
    ensures Encode(Unpack(done + [n])) == Encode(Unpack(done)) + EncodeNode(UnpackNode(n))
  {
    hide Size, Encode, EncodeNode, UnpackNode;
    UnpackConcat(done, [n]);
    assert Unpack([n]) == [UnpackNode(n)] + Unpack([]) == [UnpackNode(n)];
    EncodeConcat(Unpack(done), [UnpackNode(n)]);
    EncodeOne(UnpackNode(n));
  }

  /** The first pass rounds the running size, not each length, up to the alignment. */
  method UnpackedSize(buf: array<Byte>, start: nat, ghost p: seq<Node>) returns (size: nat)
    requires IsPath(p) && HoldsAt(buf[..], start, p)
    ensures size == Size(Unpack(p))
  {
    hide HoldsAt, EncodeNode, Encode, Size, UnpackNode, AlignSize;
    var src: nat := start;
    ghost var q, done: seq<Node> := p, [];
    size := 0;
    NothingUnpacked();
    while true
      invariant IsPath(q) && HoldsAt(buf[..], src, q) && p == done + q
      invariant size == Size(Unpack(done)) && size % ALIGN == 0
      decreases |q|
    {
      WalkStep(buf[..], src, q);
      UnpackGrows(done, q[0]);
      UnpackedLength(size, q[0]);
      size := size + LengthAt(buf[..], src);
      size := size + AlignSize(size);
      if EndAt(buf[..], src) {
        break;
      }
      PathSuffix(q);
      src := src + LengthAt(buf[..], src);
      done, q := done + [q[0]], q[1..];
    }
    assert p == done + [q[0]];
  }

  lemma NothingUnpacked()
    ensures Size(Unpack([])) == 0 && Encode(Unpack([])) == []
  {
  }

  lemma UnpackedLength(size: nat, n: Node)
    requires size % ALIGN == 0
    ensures var next := size + n.Length() + AlignSize(size + n.Length());
            next == size + UnpackNode(n).Length() && next % ALIGN == 0
  {
    SameAlign(size, n.Length());
  }

  /** One round of the copying pass, into zeroed memory. */
  method UnpackOne(dst: array<Byte>, dest: nat, buf: array<Byte>, src: nat, ghost n: Node) returns (size: nat)
    requires dst != buf && n.Ok() && src + n.Length() <= buf.Length
    requires buf[src..src + n.Length()] == EncodeNode(n)
    requires dest + UnpackNode(n).Length() <= dst.Length && dst[dest..] == ZeroBytes(dst.Length - dest)
    modifies dst
    ensures size == UnpackNode(n).Length()
    ensures dst[..] == old(dst[..dest]) + EncodeNode(UnpackNode(n)) + ZeroBytes(dst.Length - dest - size)
  {
    hide EncodeNode, AlignSize;
    HeaderAt(buf[..], src, n);
    size := LengthAt(buf[..], src);
    CopyMem(dst, dest, buf, src, size);
    assert dst[dest..dest + size] == EncodeNode(n);
    size := size + AlignSize(size);
    ghost var tail := ZeroBytes(dst.Length - dest - size);
    ghost var before := dst[..];
    assert before[dest + n.Length()..] == ZeroBytes(AlignSize(n.Length())) + tail;
    HeaderAt(before, dest, n);
    PutHeader(dst, dest, size);
    UnpackedBytes(before, dest, n, tail);
  }

  /** The length is overwritten, and the type marked. */
  method PutHeader(dst: array<Byte>, o: nat, size: nat)
    requires o + HEADER <= dst.Length
    modifies dst
    ensures dst[..] == old(dst[..o] + [SetUnpacked(dst[o]), dst[o + 1], size % 256, size / 256 % 256]
                           + dst[o + HEADER..])
  {
    ghost var before := dst[..];
    dst[o + 2], dst[o + 3] := size % 256, size / 256 % 256;
    dst[o] := SetUnpacked(dst[o]);
    SetHeader(before, o, size % 256, size / 256 % 256, SetUnpacked(before[o]));
    assert dst[..] == before[o + 2 := size % 256][o + 3 := size / 256 % 256][o := SetUnpacked(before[o])];
  }

  lemma SetHeader(m: seq<Byte>, o: nat, x: Byte, y: Byte, kind: Byte)
    requires o + HEADER <= |m|
    ensures m[o + 2 := x][o + 3 := y][o := kind] == m[..o] + [kind, m[o + 1], x, y] + m[o + HEADER..]
  {
  }

  lemma UnpackedBytes(m: seq<Byte>, o: nat, n: Node, tail: seq<Byte>)
    requires o + n.Length() <= |m| && m[o..o + n.Length()] == EncodeNode(n)
    requires m[o + n.Length()..] == ZeroBytes(AlignSize(n.Length())) + tail
    ensures var l := UnpackNode(n).Length();
            m[..o] + [SetUnpacked(n.kind), n.sub, l % 256, l / 256 % 256] + m[o + HEADER..]
              == m[..o] + EncodeNode(UnpackNode(n)) + tail
  {
    var e := m[o..o + n.Length()];
    var z := ZeroBytes(AlignSize(n.Length()));
    assert m[o + HEADER..o + n.Length()] == e[HEADER..] == n.payload;
    assert m[o + HEADER..] == m[o + HEADER..o + n.Length()] + m[o + n.Length()..];
    assert n.payload + (z + tail) == (n.payload + z) + tail;
  }

  method UnpackDevicePath(buf: array<Byte>, start: nat, granted: bool, ghost p: seq<Node>)
    returns (r: array?<Byte>)
    requires IsPath(p) && HoldsAt(buf[..], start, p)
    ensures r != null <==> granted
    ensures r != null ==> fresh(r) && r[..] == Encode(Unpack(p))
    ensures r != null ==>
              forall i :: 0 <= i < |p| ==>
                var o, l, n := Begin(p, i), |p[i].payload|, (4 + |p[i].payload| + 3) / 4 * 4;
                && o + n <= r.Length && r[o] == 0x80 + p[i].kind % 0x80 && r[o + 1] == p[i].sub
                && (r[o + 2] as int) + 0x100 * (r[o + 3] as int) == n % 0x1_0000
                && r[o + 4..o + 4 + l] == p[i].payload && forall j :: o + 4 + l <= j < o + n ==> r[j] == 0
  {
    hide *;
    var size := UnpackedSize(buf, start, p);
    if !granted {
      return null;
    }
    var newPath := new Byte[size](_ => 0);
    AllZero(newPath[..]);
    UnpackNodes(newPath, buf, start, p);
    r := newPath;
    BytesOf(newPath, p);
  }

  /** The copying pass. */
  method UnpackNodes(newPath: array<Byte>, buf: array<Byte>, start: nat, ghost p: seq<Node>)
    requires newPath != buf && IsPath(p) && HoldsAt(buf[..], start, p)
    requires newPath.Length == Size(Unpack(p)) && newPath[..] == ZeroBytes(newPath.Length)
    modifies newPath
    ensures newPath[..] == Encode(Unpack(p))
  {
    hide HoldsAt, EncodeNode, Encode, Size, Unpack, UnpackNode, ZeroBytes;
    assert newPath[0..] == newPath[..];
    var src: nat, dest: nat := start, 0;
    ghost var q, done: seq<Node> := p, [];
    NothingUnpacked();
    while true
      invariant IsPath(q) && HoldsAt(buf[..], src, q) && p == done + q
      invariant dest == Size(Unpack(done)) <= newPath.Length && newPath[..dest] == Encode(Unpack(done))
      invariant newPath[dest..] == ZeroBytes(newPath.Length - dest)
      decreases |q|
    {
      dest := UnpackNext(newPath, dest, buf, src, done, q);
      WalkStep(buf[..], src, q);
      if EndAt(buf[..], src) {
        break;
      }
      PathSuffix(q);
      src := src + LengthAt(buf[..], src);
      done, q := done + [q[0]], q[1..];
    }
    assert p == done + [q[0]];
    assert newPath[..] == newPath[..dest];
  }

  lemma BytesOf(r: array<Byte>, p: seq<Node>)
    requires r[..] == Encode(Unpack(p))
    ensures forall i :: 0 <= i < |p| ==>
              var o, l, n := Begin(p, i), |p[i].payload|, (4 + |p[i].payload| + 3) / 4 * 4;
              && o + n <= r.Length && r[o] == 0x80 + p[i].kind % 0x80 && r[o + 1] == p[i].sub
              && (r[o + 2] as int) + 0x100 * (r[o + 3] as int) == n % 0x1_0000
              && r[o + 4..o + 4 + l] == p[i].payload && forall j :: o + 4 + l <= j < o + n ==> r[j] == 0
  {
    hide Unpack, Encode, Begin;
    var m := r[..];
    forall i | 0 <= i < |p|
      ensures var o, l, n := Begin(p, i), |p[i].payload|, (4 + |p[i].payload| + 3) / 4 * 4;
              && o + n <= r.Length && r[o] == 0x80 + p[i].kind % 0x80 && r[o + 1] == p[i].sub
              && (r[o + 2] as int) + 0x100 * (r[o + 3] as int) == n % 0x1_0000
              && r[o + 4..o + 4 + l] == p[i].payload && forall j :: o + 4 + l <= j < o + n ==> r[j] == 0
    {
      UnpackedBytesMean(p, i);
      var o, l := Begin(p, i), |p[i].payload|;
      assert r[o + 4..o + 4 + l] == m[o + 4..o + 4 + l];
      assert forall j :: 0 <= j < |m| ==> r[j] == m[j];
    }
  }

  lemma AllZero(m: seq<Byte>)
    requires forall i :: 0 <= i < |m| ==> m[i] == 0
    ensures m == ZeroBytes(|m|)
  {
  }

  /** One round of the copying pass, in terms of what has been laid down. */
  method UnpackNext(dst: array<Byte>, dest0: nat, buf: array<Byte>, src: nat, ghost done: seq<Node>, ghost q: seq<Node>)
    returns (dest: nat)
    requires dst != buf && IsPath(q) && HoldsAt(buf[..], src, q) && dst.Length == Size(Unpack(done + q))
    requires dest0 == Size(Unpack(done)) <= dst.Length && dst[..dest0] == Encode(Unpack(done))
    requires dst[dest0..] == ZeroBytes(dst.Length - dest0)
    modifies dst
    ensures dest == Size(Unpack(done + [q[0]])) <= dst.Length
    ensures dst[..dest] == Encode(Unpack(done + [q[0]])) && dst[dest..] == ZeroBytes(dst.Length - dest)
  {
    hide HoldsAt, EncodeNode, Encode, Size, Unpack, UnpackNode, ZeroBytes;
    WalkStep(buf[..], src, q);
    UnpackGrows(done, q[0]);
    RoomForNode(done, q);
    assert buf[..][src..src + q[0].Length()] == buf[src..src + q[0].Length()];
    var n := UnpackOne(dst, dest0, buf, src, q[0]);
    dest := dest0 + n;
  }

  lemma RoomForNode(done: seq<Node>, q: seq<Node>)
    requires q != []
    ensures Size(Unpack(done)) + UnpackNode(q[0]).Length() <= Size(Unpack(done + q))
  {
    UnpackConcat(done, q);
    EncodeConcat(Unpack(done), Unpack(q));
  }

  lemma {:induction false} UnpackConcat(p: seq<Node>, q: seq<Node>)
    ensures Unpack(p + q) == Unpack(p) + Unpack(q)
  {
    if p == [] {
      assert p + q == q;
    } else {
      assert (p + q)[0] == p[0] && (p + q)[1..] == p[1..] + q;
      UnpackConcat(p[1..], q);
    }
  }
}
