/** PCI enumeration over memory-mapped configuration space (kernel/src/PCI/pci.cpp): a nested
    scan into a table of 32 slots, and a direct lookup of one function. */
module Pci {
  import opened Common

  const MAX_NUMBER_OF_LANES: nat := 32

  type Addr = Word64

  /** The `DeviceID` field of the header at each address. */
  type Config = Addr -> nat

  /** One past a bus number; in the table, where it is one byte, 256 does not occur. */
  type BusLimit = b: int | 0 <= b <= 0x100

  /** One allocation of the MCFG table. */
  datatype DeviceConfig = DeviceConfig(base: Addr, startBus: Byte, endBus: BusLimit)

  predicate Present(id: nat) {
    id != 0 && id != 0xffff
  }

  function Plus(a: Addr, offset: nat): Addr {
    (a + offset) % W64
  }

  /** `<<` by 20, 15 and 12 bits. */
  function BusAddress(base: Addr, bus: nat): Addr { Plus(base, bus * 0x10_0000) }
  function DeviceAddress(busAddress: Addr, device: nat): Addr { Plus(busAddress, device * 0x8000) }
  function FunctionAddress(deviceAddress: Addr, function': nat): Addr { Plus(deviceAddress, function' * 0x1000) }

  // ----- The direct lookup -----

  /** `EnumerateFunction` with four indices: the header's address, or none. The bus index is
      added to the first bus with 64-bit wrap-around. */
  function Lookup(cfg: Config, entries: seq<DeviceConfig>, e: nat, b: nat, d: nat, f: nat): Option<Addr> {
    if |entries| <= e || d >= 32 || f >= 8 then None
    else
      var bus := (entries[e].startBus + b) % W64;
      if bus >= entries[e].endBus then None
      else
        var busAddress := BusAddress(entries[e].base, bus);
        if !Present(cfg(busAddress)) then None
        else
          var deviceAddress := DeviceAddress(busAddress, d);
          if !Present(cfg(deviceAddress)) then None
          else
            var functionAddress := FunctionAddress(deviceAddress, f);
            if !Present(cfg(functionAddress)) then None else Some(functionAddress)
  }

  /** A function is only visible when function 0 of its device and function 0 of device 0 of its
      bus are. */
  lemma LookupGated(cfg: Config, entries: seq<DeviceConfig>, e: nat, b: nat, d: nat, f: nat)
    requires Lookup(cfg, entries, e, b, d, f).Some?
    ensures Lookup(cfg, entries, e, b, d, 0).Some? && Lookup(cfg, entries, e, b, 0, 0).Some?
  {
    assert forall a: Addr :: Plus(a, 0 * 0x8000) == a && Plus(a, 0 * 0x1000) == a;
  }

  /** A bus index whose sum wraps around reaches a bus before the first one; any other index
      finds a bus of the allocation or nothing. */
  lemma LookupBus(cfg: Config, entries: seq<DeviceConfig>, e: nat, b: nat, d: nat, f: nat)
    requires b < W64 && Lookup(cfg, entries, e, b, d, f).Some?
    ensures e < |entries| && (b >= W64 - entries[e].startBus || entries[e].startBus + b < entries[e].endBus)
    ensures b >= W64 - entries[e].startBus ==>
              Lookup(cfg, entries, e, b, d, f) ==
              Lookup(cfg, [entries[e].(startBus := 0)], 0, entries[e].startBus + b - W64, d, f)
  {
    hide Present, BusAddress, DeviceAddress, FunctionAddress;
  }

  // ----- Places, in the order the scan visits them -----

  /** Entry, bus index, device and function as one number: the order of places is numeric. */
  function Key(e: nat, b: nat, d: nat, f: nat): nat {
    ((e * 256 + b) * 32 + d) * 8 + f
  }

  function At(cfg: Config, entries: seq<DeviceConfig>, k: nat): Option<Addr> {
    Lookup(cfg, entries, k / 65536, k / 256 % 256, k / 8 % 32, k % 8)
  }

  lemma KeyParts(e: nat, b: nat, d: nat, f: nat)
    requires b < 256 && d < 32 && f < 8
    ensures var k := Key(e, b, d, f); k / 65536 == e && k / 256 % 256 == b && k / 8 % 32 == d && k % 8 == f
  {
    var k := Key(e, b, d, f);
    assert k / 8 == (e * 256 + b) * 32 + d;
    assert k / 256 == e * 256 + b;
  }

  /** Places are in the order of their entries, then their buses, devices and functions. */
  lemma KeyMeans(e: nat, b: nat, d: nat, f: nat, e': nat, b': nat, d': nat, f': nat)
    requires b < 256 && d < 32 && f < 8 && b' < 256 && d' < 32 && f' < 8
    ensures Key(e, b, d, f) < Key(e', b', d', f') <==>
            e < e' || (e == e' && (b < b' || (b == b' && (d < d' || (d == d' && f < f')))))
  {
  }

  lemma AtKey(cfg: Config, entries: seq<DeviceConfig>, e: nat, b: nat, d: nat, f: nat)
    requires b < 256 && d < 32 && f < 8
    ensures At(cfg, entries, Key(e, b, d, f)) == Lookup(cfg, entries, e, b, d, f)
  {
    hide Lookup, Key;
    KeyParts(e, b, d, f);
  }

  /** The places in [m, n) where the lookup finds a function, in order. */
  function Hits(cfg: Config, entries: seq<DeviceConfig>, m: nat, n: nat): seq<nat> {
    if n <= m then []
    else Hits(cfg, entries, m, n - 1) + if At(cfg, entries, n - 1).Some? then [n - 1] else []
  }

  predicate Rising(h: seq<nat>) {
    forall i, j :: 0 <= i < j < |h| ==> h[i] < h[j]
  }

  lemma HitsExactly(cfg: Config, entries: seq<DeviceConfig>, m: nat, n: nat)
    ensures forall k :: k in Hits(cfg, entries, m, n) <==> m <= k < n && At(cfg, entries, k).Some?
    ensures var h := Hits(cfg, entries, m, n); forall i, j :: 0 <= i < j < |h| ==> h[i] < h[j]
  {
    hide At, Hits;
    HitsMembers(cfg, entries, m, n);
    HitsOrdered(cfg, entries, m, n);
  }

  lemma {:induction false} HitsMembers(cfg: Config, entries: seq<DeviceConfig>, m: nat, n: nat)
    ensures forall k :: k in Hits(cfg, entries, m, n) <==> m <= k < n && At(cfg, entries, k).Some?
  {
    hide At;
    if n <= m {
    } else {
      HitsMembers(cfg, entries, m, n - 1);
    }
  }

  lemma {:induction false} HitsOrdered(cfg: Config, entries: seq<DeviceConfig>, m: nat, n: nat)
    ensures Rising(Hits(cfg, entries, m, n))
  {
    hide At, Rising;
    if n <= m {
      NoneRising();
    } else {
      HitsOrdered(cfg, entries, m, n - 1);
      HitsMembers(cfg, entries, m, n - 1);
      var h := Hits(cfg, entries, m, n - 1);
      OneMoreRising(h, n - 1);
      assert h + [] == h;
    }
  }

  lemma NoneRising()
    ensures Rising([])
  {
  }

  lemma OneMoreRising(h: seq<nat>, x: nat)
    requires Rising(h) && forall k :: k in h ==> k < x
    ensures Rising(h + [x])
  {
    assert forall i :: 0 <= i < |h| ==> h[i] in h;
  }

  lemma {:induction false} HitsSplit(cfg: Config, entries: seq<DeviceConfig>, m: nat, k: nat, n: nat)
    requires m <= k <= n
    ensures Hits(cfg, entries, m, n) == Hits(cfg, entries, m, k) + Hits(cfg, entries, k, n)
    decreases n
  {
    hide At;
    if k == n {
    } else {
      HitsSplit(cfg, entries, m, k, n - 1);
    }
  }

  lemma {:induction false} NoHits(cfg: Config, entries: seq<DeviceConfig>, m: nat, n: nat)
    requires forall k: nat :: m <= k < n ==> At(cfg, entries, k).None?
    ensures Hits(cfg, entries, m, n) == []
  {
    hide At;
    if n <= m {
    } else {
      NoHits(cfg, entries, m, n - 1);
    }
  }

  ghost function Addresses(cfg: Config, entries: seq<DeviceConfig>, keys: seq<nat>): seq<Addr>
    requires forall k :: k in keys ==> At(cfg, entries, k).Some?
  {
    seq(|keys|, i requires 0 <= i < |keys| => At(cfg, entries, keys[i]).value)
  }

  /** The addresses the lookup gives for the places in [m, n), in order. */
  ghost function Found(cfg: Config, entries: seq<DeviceConfig>, m: nat, n: nat): seq<Addr> {
    HitsExactly(cfg, entries, m, n);
    Addresses(cfg, entries, Hits(cfg, entries, m, n))
  }

  lemma FoundSplit(cfg: Config, entries: seq<DeviceConfig>, m: nat, k: nat, n: nat)
    requires m <= k <= n
    ensures Found(cfg, entries, m, n) == Found(cfg, entries, m, k) + Found(cfg, entries, k, n)
  {
    hide At, Hits;
    HitsSplit(cfg, entries, m, k, n);
    HitsExactly(cfg, entries, m, n);
    HitsExactly(cfg, entries, m, k);
    HitsExactly(cfg, entries, k, n);
  }

  lemma FoundOne(cfg: Config, entries: seq<DeviceConfig>, e: nat, b: nat, d: nat, f: nat)
    requires b < 256 && d < 32 && f < 8
    ensures var k, r := Key(e, b, d, f), Lookup(cfg, entries, e, b, d, f);
            Found(cfg, entries, k, k + 1) == if r.Some? then [r.value] else []
  {
    hide At, Lookup;
    var k := Key(e, b, d, f);
    AtKey(cfg, entries, e, b, d, f);
    assert Hits(cfg, entries, k, k) == [];
  }

  lemma FoundNone(cfg: Config, entries: seq<DeviceConfig>, m: nat, n: nat)
    requires forall k: nat :: m <= k < n ==> At(cfg, entries, k).None?
    ensures Found(cfg, entries, m, n) == []
  {
    hide At;
    NoHits(cfg, entries, m, n);
  }

  /** A device whose function 0 is absent has no function that can be looked up. */
  lemma AbsentDevice(cfg: Config, entries: seq<DeviceConfig>, e: nat, b: nat, d: nat)
    requires b < 256 && d < 32 && Lookup(cfg, entries, e, b, d, 0).None?
    ensures Found(cfg, entries, Key(e, b, d, 0), Key(e, b, d, 8)) == []
  {
    hide Lookup, At;
    forall k: nat | Key(e, b, d, 0) <= k < Key(e, b, d, 8) ensures At(cfg, entries, k).None? {
      var f: nat := k - Key(e, b, d, 0);
      AtKey(cfg, entries, e, b, d, f);
      if Lookup(cfg, entries, e, b, d, f).Some? { LookupGated(cfg, entries, e, b, d, f); }
    }
    FoundNone(cfg, entries, Key(e, b, d, 0), Key(e, b, d, 8));
  }

  lemma WithinBus(e: nat, b: nat, k: nat) returns (d: nat, f: nat)
    requires Key(e, b, 0, 0) <= k < Key(e, b, 32, 0)
    ensures d < 32 && f < 8 && k == Key(e, b, d, f)
  {
    var r: nat := k - Key(e, b, 0, 0);
    d, f := r / 8, r % 8;
  }

  /** A bus whose first device is absent, or that the allocation does not have, has none. */
  lemma AbsentBus(cfg: Config, entries: seq<DeviceConfig>, e: nat, b: nat)
    requires b < 256 && Lookup(cfg, entries, e, b, 0, 0).None?
    ensures Found(cfg, entries, Key(e, b, 0, 0), Key(e, b, 32, 0)) == []
  {
    hide Lookup, At, Key;
    forall k: nat | Key(e, b, 0, 0) <= k < Key(e, b, 32, 0) ensures At(cfg, entries, k).None? {
      var d, f := WithinBus(e, b, k);
      AtKey(cfg, entries, e, b, d, f);
      if Lookup(cfg, entries, e, b, d, f).Some? { LookupGated(cfg, entries, e, b, d, f); }
    }
    FoundNone(cfg, entries, Key(e, b, 0, 0), Key(e, b, 32, 0));
  }

  lemma {:induction false} PastLastBus(cfg: Config, entries: seq<DeviceConfig>, e: nat, b: nat)
    requires e < |entries| && b <= 256 && entries[e].startBus + b >= entries[e].endBus
    ensures Found(cfg, entries, Key(e, b, 0, 0), Key(e, 256, 0, 0)) == []
    decreases 256 - b
  {
    hide At;
    if b < 256 {
      AbsentBus(cfg, entries, e, b);
      PastLastBus(cfg, entries, e, b + 1);
      FoundSplit(cfg, entries, Key(e, b, 0, 0), Key(e, b + 1, 0, 0), Key(e, 256, 0, 0));
    } else {
      NoHits(cfg, entries, Key(e, 256, 0, 0), Key(e, 256, 0, 0));
    }
  }

  // ----- The scan -----

  /** What a table of 32 slots keeps of a list. */
  function Cut(s: seq<Addr>): seq<Addr> {
    if |s| > MAX_NUMBER_OF_LANES then s[..MAX_NUMBER_OF_LANES] else s
  }

  lemma FirstSlots(s: seq<Addr>)
    ensures Cut(s) == s[..if |s| < 32 then |s| else 32]
  {
  }

  lemma CutAgain(a: seq<Addr>, b: seq<Addr>, c: seq<Addr>)
    ensures Cut(Cut(a + b) + c) == Cut(a + (b + c))
  {
    assert a + b + c == a + (b + c);
  }

  class DeviceTable {
    const slots: array<Addr>
    var num: nat

    constructor ()
      ensures Valid() && Recorded() == [] && fresh(slots)
    {
      slots := new Addr[MAX_NUMBER_OF_LANES](_ => 0);
      num := 0;
    }

    ghost predicate Valid()
      reads this
    {
      slots.Length == MAX_NUMBER_OF_LANES && num <= MAX_NUMBER_OF_LANES
    }

    ghost function Recorded(): seq<Addr>
      requires Valid()
      reads this, slots
    {
      slots[..num]
    }

    method EnumerateFunction(cfg: Config, deviceAddress: Addr, function': nat)
      requires Valid()
      modifies this, slots
      ensures Valid()
      ensures var a := FunctionAddress(deviceAddress, function');
              Recorded() == Cut(old(Recorded()) + if Present(cfg(a)) then [a] else [])
    {
      var functionAddress := FunctionAddress(deviceAddress, function');
      if cfg(functionAddress) == 0 {
        return;
      }
      if cfg(functionAddress) == 0xffff {
        return;
      }
      if num >= MAX_NUMBER_OF_LANES {
        return;
      }
      slots[num] := functionAddress;
      num := num + 1;
    }

    /** Device `d` on bus `b` of entry `e`: its lookup hits are recorded. */
    method EnumerateDevice(cfg: Config, busAddress: Addr, device: nat,
                           ghost entries: seq<DeviceConfig>, ghost e: nat, ghost b: nat)
      requires Valid() && device < 32 && OnBus(cfg, entries, e, b, busAddress)
      modifies this, slots
      ensures Valid()
      ensures Recorded() == Cut(old(Recorded()) + Found(cfg, entries, Key(e, b, device, 0), Key(e, b, device, 8)))
    {
      hide Found, Recorded, Key, Lookup, OnBus, Cut;
      var deviceAddress := DeviceAddress(busAddress, device);
      ghost var prior := Recorded();
      LookupHere(cfg, entries, e, b, device, 0, busAddress);
      OnBusRange(cfg, entries, e, b, busAddress);
      KeyStep(e, b, device);
      if cfg(deviceAddress) == 0 || cfg(deviceAddress) == 0xffff {
        AbsentDevice(cfg, entries, e, b, device);
        Kept();
        return;
      }
      ghost var k := Key(e, b, device, 0);
      Kept();
      NothingYet(cfg, entries, k, prior);
      for f := 0 to 8
        invariant Valid() && Recorded() == Cut(prior + Found(cfg, entries, k, k + f))
      {
        EnumerateFunction(cfg, deviceAddress, f);
        OneMore(cfg, entries, e, b, device, f, busAddress, prior);
      }
    }

    lemma Kept()
      requires Valid()
      ensures Cut(Recorded() + []) == Recorded()
    {
      assert Recorded() + [] == Recorded();
    }

    method EnumerateBus(cfg: Config, ghost entries: seq<DeviceConfig>, baseAddress: Addr, bus: nat, ghost e: nat)
      requires Valid() && e < |entries| && baseAddress == entries[e].base
      requires entries[e].startBus <= bus < entries[e].endBus
      modifies this, slots
      ensures Valid()
      ensures var b := bus - entries[e].startBus;
              Recorded() == Cut(old(Recorded()) + Found(cfg, entries, Key(e, b, 0, 0), Key(e, b, 32, 0)))
    {
      hide Found, Recorded, Key, Lookup;
      var busAddress := BusAddress(baseAddress, bus);
      ghost var prior := Recorded();
      ghost var b: nat := bus - entries[e].startBus;
      BusPresent(cfg, entries, e, b);
      Kept();
      if cfg(busAddress) == 0 || cfg(busAddress) == 0xffff {
        AbsentBus(cfg, entries, e, b);
        return;
      }
      NothingYet(cfg, entries, Key(e, b, 0, 0), prior);
      for d := 0 to 32
        invariant Valid() && Recorded() == Cut(prior + Found(cfg, entries, Key(e, b, 0, 0), Key(e, b, d, 0)))
      {
        EnumerateDevice(cfg, busAddress, d, entries, e, b);
        NextDevice(e, b, d);
        Extend(cfg, entries, Key(e, b, 0, 0), Key(e, b, d, 0), Key(e, b, d + 1, 0), prior);
      }
    }

    /** From any state of the table, what the direct lookup finds is recorded behind what was
        there, as long as there is room. */
    method EnumeratePCI(cfg: Config, entries: seq<DeviceConfig>)
      requires Valid()
      modifies this, slots
      ensures Valid()
      ensures Recorded() == Cut(old(Recorded()) + Found(cfg, entries, 0, Key(|entries|, 0, 0, 0)))
      ensures var all := old(Recorded()) + Found(cfg, entries, 0, Key(|entries|, 0, 0, 0));
              Recorded() == all[..if |all| < 32 then |all| else 32]
      ensures forall a :: a in Recorded() ==> a in old(Recorded()) || (cfg(a) != 0 && cfg(a) != 0xffff)
    {
      hide Found, Recorded, Key, Lookup;
      ghost var prior := Recorded();
      AllPresent(cfg, entries);
      FirstSlots(prior + Found(cfg, entries, 0, Key(|entries|, 0, 0, 0)));
      Kept();
      NothingYet(cfg, entries, Key(0, 0, 0, 0), prior);
      KeyZero();
      if |entries| == 0 {
        return;
      }
      for t := 0 to |entries|
        invariant Valid() && Recorded() == Cut(prior + Found(cfg, entries, 0, Key(t, 0, 0, 0)))
      {
        EnumerateEntry(cfg, entries, t);
        NextEntry(t);
        Extend(cfg, entries, 0, Key(t, 0, 0, 0), Key(t + 1, 0, 0, 0), prior);
      }
    }

    /** The loop over the buses of one entry. */
    method EnumerateEntry(cfg: Config, entries: seq<DeviceConfig>, t: nat)
      requires Valid() && t < |entries|
      modifies this, slots
      ensures Valid()
      ensures Recorded() == Cut(old(Recorded()) + Found(cfg, entries, Key(t, 0, 0, 0), Key(t, 256, 0, 0)))
    {
      hide Found, Recorded, Key, Lookup;
      ghost var prior := Recorded();
      var bus: nat := entries[t].startBus;
      ghost var b: nat := 0;
      Kept();
      NothingYet(cfg, entries, Key(t, 0, 0, 0), prior);
      while bus < entries[t].endBus
        invariant Valid() && bus == entries[t].startBus + b && b <= 256
        invariant Recorded() == Cut(prior + Found(cfg, entries, Key(t, 0, 0, 0), Key(t, b, 0, 0)))
      {
        EnumerateBus(cfg, entries, entries[t].base, bus, t);
        NextBus(t, b);
        Extend(cfg, entries, Key(t, 0, 0, 0), Key(t, b, 0, 0), Key(t, b + 1, 0, 0), prior);
        bus, b := bus + 1, b + 1;
      }
      PastLastBus(cfg, entries, t, b);
      KeyOrder(t, b);
      FoundSplit(cfg, entries, Key(t, 0, 0, 0), Key(t, b, 0, 0), Key(t, 256, 0, 0));
      Nothing(Found(cfg, entries, Key(t, 0, 0, 0), Key(t, b, 0, 0)));
    }
  }

  ghost predicate OnBus(cfg: Config, entries: seq<DeviceConfig>, e: nat, b: nat, busAddress: Addr) {
    && e < |entries| && b < 256 && entries[e].startBus + b < entries[e].endBus
    && busAddress == BusAddress(entries[e].base, entries[e].startBus + b)
    && Present(cfg(busAddress))
  }

  lemma BusPresent(cfg: Config, entries: seq<DeviceConfig>, e: nat, b: nat)
    requires e < |entries| && b < 256 && entries[e].startBus + b < entries[e].endBus
    ensures Lookup(cfg, entries, e, b, 0, 0).Some?
            <==> OnBus(cfg, entries, e, b, BusAddress(entries[e].base, entries[e].startBus + b))
  {
    hide Present, BusAddress;
    var a := BusAddress(entries[e].base, entries[e].startBus + b);
    assert DeviceAddress(a, 0) == a && FunctionAddress(a, 0) == a;
  }

  lemma NothingYet(cfg: Config, entries: seq<DeviceConfig>, k: nat, prior: seq<Addr>)
    ensures prior + Found(cfg, entries, k, k) == prior + []
  {
  }

  lemma Nothing(s: seq<Addr>)
    ensures s + [] == s
  {
  }

  lemma Extend(cfg: Config, entries: seq<DeviceConfig>, m: nat, k: nat, n: nat, prior: seq<Addr>)
    requires m <= k <= n
    ensures Cut(Cut(prior + Found(cfg, entries, m, k)) + Found(cfg, entries, k, n))
            == Cut(prior + Found(cfg, entries, m, n))
  {
    hide Found, Cut;
    FoundSplit(cfg, entries, m, k, n);
    CutAgain(prior, Found(cfg, entries, m, k), Found(cfg, entries, k, n));
  }

  lemma LookupHere(cfg: Config, entries: seq<DeviceConfig>, e: nat, b: nat, d: nat, f: nat, busAddress: Addr)
    requires OnBus(cfg, entries, e, b, busAddress) && d < 32 && f < 8
    ensures var dev := DeviceAddress(busAddress, d);
            var a := FunctionAddress(dev, f);
            Lookup(cfg, entries, e, b, d, f)
            == if Present(cfg(dev)) && Present(cfg(a)) then Some(a) else None
  {
    hide Present, DeviceAddress, FunctionAddress, BusAddress;
  }

  lemma OneMore(cfg: Config, entries: seq<DeviceConfig>, e: nat, b: nat, d: nat, f: nat,
                busAddress: Addr, prior: seq<Addr>)
    requires OnBus(cfg, entries, e, b, busAddress) && d < 32 && f < 8
    requires Present(cfg(DeviceAddress(busAddress, d)))
    ensures var k := Key(e, b, d, 0);
            var a := FunctionAddress(DeviceAddress(busAddress, d), f);
            Cut(Cut(prior + Found(cfg, entries, k, k + f)) + if Present(cfg(a)) then [a] else [])
            == Cut(prior + Found(cfg, entries, k, k + (f + 1)))
  {
    hide Found, Cut, Lookup, Present, DeviceAddress, FunctionAddress;
    var k := Key(e, b, d, 0);
    LookupHere(cfg, entries, e, b, d, f, busAddress);
    FoundOne(cfg, entries, e, b, d, f);
    Extend(cfg, entries, k, k + f, k + f + 1, prior);
  }

  lemma OnBusRange(cfg: Config, entries: seq<DeviceConfig>, e: nat, b: nat, busAddress: Addr)
    requires OnBus(cfg, entries, e, b, busAddress)
    ensures e < |entries| && b < 256
  {
  }

  lemma KeyStep(e: nat, b: nat, d: nat)
    ensures Key(e, b, d, 8) == Key(e, b, d, 0) + 8
  {
  }

  lemma NextDevice(e: nat, b: nat, d: nat)
    ensures Key(e, b, d, 8) == Key(e, b, d + 1, 0) && Key(e, b, 0, 0) <= Key(e, b, d, 0) <= Key(e, b, d + 1, 0)
  {
  }

  lemma NextBus(e: nat, b: nat)
    ensures Key(e, b, 32, 0) == Key(e, b + 1, 0, 0) && Key(e, 0, 0, 0) <= Key(e, b, 0, 0) <= Key(e, b + 1, 0, 0)
  {
  }

  lemma KeyOrder(e: nat, b: nat)
    requires b <= 256
    ensures Key(e, 0, 0, 0) <= Key(e, b, 0, 0) <= Key(e, 256, 0, 0)
  {
  }

  lemma NextEntry(e: nat)
    ensures Key(e, 256, 0, 0) == Key(e + 1, 0, 0, 0) && Key(e, 0, 0, 0) <= Key(e + 1, 0, 0, 0)
  {
  }

  lemma KeyZero()
    ensures Key(0, 0, 0, 0) == 0
  {
  }

  // ----- Distinctness -----

  /** First and one-past-last address of an allocation's configuration space. */
  function Low(c: DeviceConfig): nat { c.base + c.startBus * 0x10_0000 }
  function High(c: DeviceConfig): nat { c.base + c.endBus * 0x10_0000 }

  ghost predicate Separate(entries: seq<DeviceConfig>) {
    && (forall i :: 0 <= i < |entries| ==> High(entries[i]) <= W64)
    && (forall i, j :: 0 <= i < j < |entries| ==>
          High(entries[i]) <= Low(entries[j]) || High(entries[j]) <= Low(entries[i]))
  }

  /** Where a found function is, without wrap-around. */
  lemma FoundAddress(cfg: Config, entries: seq<DeviceConfig>, e: nat, b: nat, d: nat, f: nat)
    requires e < |entries| && High(entries[e]) <= W64 && b < 256 && Lookup(cfg, entries, e, b, d, f).Some?
    ensures var a := Lookup(cfg, entries, e, b, d, f).value;
            && a == Low(entries[e]) + b * 0x10_0000 + d * 0x8000 + f * 0x1000
            && d < 32 && f < 8 && a < High(entries[e])
  {
    hide Lookup, BusAddress, DeviceAddress, FunctionAddress;
    LookupValue(cfg, entries, e, b, d, f);
    NoWrap(entries[e], entries[e].startBus + b, d, f);
  }

  lemma LookupValue(cfg: Config, entries: seq<DeviceConfig>, e: nat, b: nat, d: nat, f: nat)
    requires b < 256 && Lookup(cfg, entries, e, b, d, f).Some?
    ensures e < |entries| && d < 32 && f < 8 && entries[e].startBus + b < entries[e].endBus
    ensures Lookup(cfg, entries, e, b, d, f).value
            == FunctionAddress(DeviceAddress(BusAddress(entries[e].base, entries[e].startBus + b), d), f)
  {
    hide Present, BusAddress, DeviceAddress, FunctionAddress;
  }

  lemma NoWrap(c: DeviceConfig, bus: nat, d: nat, f: nat)
    requires High(c) <= W64 && bus < c.endBus && d < 32 && f < 8
    ensures var a := FunctionAddress(DeviceAddress(BusAddress(c.base, bus), d), f);
            a == c.base + bus * 0x10_0000 + d * 0x8000 + f * 0x1000 < High(c)
  {
    assert bus + 1 <= c.endBus;
    Small(c.base, bus * 0x10_0000);
    Small(c.base + bus * 0x10_0000, d * 0x8000);
    Small(c.base + bus * 0x10_0000 + d * 0x8000, f * 0x1000);
  }

  lemma Small(a: Addr, offset: nat)
    requires a + offset < W64
    ensures Plus(a, offset) == a + offset
  {
  }

  lemma OffsetsInjective(b: nat, d: nat, f: nat, b': nat, d': nat, f': nat)
    requires d < 32 && f < 8 && d' < 32 && f' < 8
    requires b * 0x10_0000 + d * 0x8000 + f * 0x1000 == b' * 0x10_0000 + d' * 0x8000 + f' * 0x1000
    ensures b == b' && d == d' && f == f'
  {
  }

  lemma KeyInverse(k: nat)
    ensures k == Key(k / 65536, k / 256 % 256, k / 8 % 32, k % 8)
  {
    assert k / 65536 == k / 256 / 256 && k / 256 == k / 8 / 32;
  }

  lemma AtInjective(cfg: Config, entries: seq<DeviceConfig>, k: nat, l: nat)
    requires Separate(entries)
    ensures At(cfg, entries, k).Some? && At(cfg, entries, k) == At(cfg, entries, l) ==> k == l
  {
    hide Lookup, Key, Low, High;
    if At(cfg, entries, k).Some? && At(cfg, entries, k) == At(cfg, entries, l) {
      SamePlace(cfg, entries, k, l);
    }
  }

  lemma SamePlace(cfg: Config, entries: seq<DeviceConfig>, k: nat, l: nat)
    requires Separate(entries) && At(cfg, entries, k).Some? && At(cfg, entries, k) == At(cfg, entries, l)
    ensures k == l
  {
    hide Lookup, Key, Low, High;
    KeyInverse(k);
    KeyInverse(l);
    var e, b, d, f := k / 65536, k / 256 % 256, k / 8 % 32, k % 8;
    var e', b', d', f' := l / 65536, l / 256 % 256, l / 8 % 32, l % 8;
    LookupEntry(cfg, entries, e, b, d, f);
    LookupEntry(cfg, entries, e', b', d', f');
    FoundAddress(cfg, entries, e, b, d, f);
    FoundAddress(cfg, entries, e', b', d', f');
    SameEntry(entries, e, e', At(cfg, entries, k).value);
    OffsetsInjective(b, d, f, b', d', f');
  }

  lemma LookupEntry(cfg: Config, entries: seq<DeviceConfig>, e: nat, b: nat, d: nat, f: nat)
    requires Lookup(cfg, entries, e, b, d, f).Some?
    ensures e < |entries|
  {
  }

  lemma SameEntry(entries: seq<DeviceConfig>, i: nat, j: nat, a: nat)
    requires Separate(entries) && i < |entries| && j < |entries|
    requires Low(entries[i]) <= a < High(entries[i]) && Low(entries[j]) <= a < High(entries[j])
    ensures i == j
  {
  }

  /** Allocations that do not overlap never put the same function into the table twice. */
  lemma FoundDistinct(cfg: Config, entries: seq<DeviceConfig>, m: nat, n: nat)
    requires Separate(entries)
    ensures var s := Found(cfg, entries, m, n); forall i, j :: 0 <= i < j < |s| ==> s[i] != s[j]
  {
    hide At, Separate;
    HitsExactly(cfg, entries, m, n);
    HitsOrdered(cfg, entries, m, n);
    var h := Hits(cfg, entries, m, n);
    var s := Found(cfg, entries, m, n);
    assert Rising(h);
    forall i, j | 0 <= i < j < |s| ensures s[i] != s[j] {
      assert h[i] in h && h[j] in h;
      if s[i] == s[j] {
        AtInjective(cfg, entries, h[i], h[j]);
      }
    }
  }

  /** An address is found exactly when some lookup that does not wrap gives it. */
  lemma FoundIffLookup(cfg: Config, entries: seq<DeviceConfig>, a: Addr)
    ensures a in Found(cfg, entries, 0, Key(|entries|, 0, 0, 0))
            <==> exists e: nat, b: nat, d: nat, f: nat :: b < 256 && Lookup(cfg, entries, e, b, d, f) == Some(a)
  {
    hide Lookup, Key, At, Found;
    KeyZero();
    var n := Key(|entries|, 0, 0, 0);
    if a in Found(cfg, entries, 0, n) {
      var k := FoundAt(cfg, entries, 0, n, a);
      AtParts(cfg, entries, k);
    }
    if e: nat, b: nat, d: nat, f: nat :| b < 256 && Lookup(cfg, entries, e, b, d, f) == Some(a) {
      LookupRange(cfg, entries, e, b, d, f);
      AtKey(cfg, entries, e, b, d, f);
      AtFound(cfg, entries, 0, n, Key(e, b, d, f));
    }
  }

  lemma FoundAt(cfg: Config, entries: seq<DeviceConfig>, m: nat, n: nat, a: Addr) returns (k: nat)
    requires a in Found(cfg, entries, m, n)
    ensures m <= k < n && At(cfg, entries, k) == Some(a)
  {
    hide At, Hits;
    HitsExactly(cfg, entries, m, n);
    var h := Hits(cfg, entries, m, n);
    var i :| 0 <= i < |h| && Found(cfg, entries, m, n)[i] == a;
    k := h[i];
    assert k in h;
  }

  lemma AtFound(cfg: Config, entries: seq<DeviceConfig>, m: nat, n: nat, k: nat)
    requires m <= k < n && At(cfg, entries, k).Some?
    ensures At(cfg, entries, k).value in Found(cfg, entries, m, n)
  {
    hide At, Hits;
    HitsExactly(cfg, entries, m, n);
    var h := Hits(cfg, entries, m, n);
    var i :| 0 <= i < |h| && h[i] == k;
    assert Found(cfg, entries, m, n)[i] == At(cfg, entries, k).value;
  }

  lemma AtParts(cfg: Config, entries: seq<DeviceConfig>, k: nat)
    ensures exists e: nat, b: nat, d: nat, f: nat ::
              b < 256 && Lookup(cfg, entries, e, b, d, f) == At(cfg, entries, k)
  {
    hide Lookup;
    assert k / 256 % 256 < 256;
    assert Lookup(cfg, entries, k / 65536, k / 256 % 256, k / 8 % 32, k % 8) == At(cfg, entries, k);
  }

  /** What the scan finds, in terms of what is read: the addresses that the offsets of a bus of
      some allocation, of a device and of a function add up to, where the device identifiers on
      the way are neither 0 nor 0xffff. */
  lemma FoundIsPresent(cfg: Config, entries: seq<DeviceConfig>, a: Addr)
    returns (e: nat, bus: nat, d: nat, f: nat)
    requires a in Found(cfg, entries, 0, Key(|entries|, 0, 0, 0))
    ensures e < |entries| && entries[e].startBus <= bus < entries[e].endBus && d < 32 && f < 8
    ensures var busAddress: Addr := (entries[e].base + bus * 0x10_0000) % 0x1_0000_0000_0000_0000;
            var deviceAddress: Addr := (busAddress + d * 0x8000) % 0x1_0000_0000_0000_0000;
            && a == (deviceAddress + f * 0x1000) % 0x1_0000_0000_0000_0000
            && cfg(busAddress) != 0 && cfg(busAddress) != 0xffff
            && cfg(deviceAddress) != 0 && cfg(deviceAddress) != 0xffff
            && cfg(a) != 0 && cfg(a) != 0xffff
  {
    hide Found, Key, Lookup;
    FoundIffLookup(cfg, entries, a);
    var b: nat;
    e, b, d, f :| b < 256 && Lookup(cfg, entries, e, b, d, f) == Some(a);
    bus := LookupIsPresent(cfg, entries, e, b, d, f, a);
  }

  lemma LookupIsPresent(cfg: Config, entries: seq<DeviceConfig>, e: nat, b: nat, d: nat, f: nat, a: Addr)
    returns (bus: nat)
    requires b < 256 && Lookup(cfg, entries, e, b, d, f) == Some(a)
    ensures e < |entries| && entries[e].startBus <= bus < entries[e].endBus && d < 32 && f < 8
    ensures var busAddress: Addr := (entries[e].base + bus * 0x10_0000) % 0x1_0000_0000_0000_0000;
            var deviceAddress: Addr := (busAddress + d * 0x8000) % 0x1_0000_0000_0000_0000;
            && a == (deviceAddress + f * 0x1000) % 0x1_0000_0000_0000_0000
            && cfg(busAddress) != 0 && cfg(busAddress) != 0xffff
            && cfg(deviceAddress) != 0 && cfg(deviceAddress) != 0xffff
            && cfg(a) != 0 && cfg(a) != 0xffff
  {
    hide Lookup, LookupOn, BusAddress;
    LookupValue(cfg, entries, e, b, d, f);
    LookupByBus(cfg, entries, e, b, d, f);
    bus := entries[e].startBus + b;
    BusMeans(entries[e].base, bus);
    LookupOnMeans(cfg, BusAddress(entries[e].base, bus), d, f, a);
  }

  lemma BusMeans(base: Addr, bus: nat)
    ensures BusAddress(base, bus) == (base + bus * 0x10_0000) % 0x1_0000_0000_0000_0000
  {
  }

  lemma LookupOnMeans(cfg: Config, busAddress: Addr, d: nat, f: nat, a: Addr)
    ensures var deviceAddress: Addr := (busAddress + d * 0x8000) % 0x1_0000_0000_0000_0000;
            LookupOn(cfg, busAddress, d, f) == Some(a) <==>
            && d < 32 && f < 8 && a == (deviceAddress + f * 0x1000) % 0x1_0000_0000_0000_0000
            && cfg(busAddress) != 0 && cfg(busAddress) != 0xffff
            && cfg(deviceAddress) != 0 && cfg(deviceAddress) != 0xffff
            && cfg(a) != 0 && cfg(a) != 0xffff
  {
  }

  /** And it finds all of those. */
  lemma PresentIsFound(cfg: Config, entries: seq<DeviceConfig>, e: nat, bus: nat, d: nat, f: nat,
                       busAddress: Addr, deviceAddress: Addr, a: Addr)
    requires e < |entries| && entries[e].startBus <= bus < entries[e].endBus && d < 32 && f < 8
    requires busAddress == (entries[e].base + bus * 0x10_0000) % 0x1_0000_0000_0000_0000
    requires deviceAddress == (busAddress + d * 0x8000) % 0x1_0000_0000_0000_0000
    requires a == (deviceAddress + f * 0x1000) % 0x1_0000_0000_0000_0000
    requires cfg(busAddress) != 0 && cfg(busAddress) != 0xffff
    requires cfg(deviceAddress) != 0 && cfg(deviceAddress) != 0xffff
    requires cfg(a) != 0 && cfg(a) != 0xffff
    ensures a in Found(cfg, entries, 0, |entries| * 65536)
  {
    hide Found, Key, Lookup, LookupOn, BusAddress;
    KeyOfEntry(|entries|);
    BusMeans(entries[e].base, bus);
    LookupOnMeans(cfg, busAddress, d, f, a);
    LookupByBus(cfg, entries, e, bus - entries[e].startBus, d, f);
    LookupRecorded(cfg, entries, e, bus - entries[e].startBus, d, f);
  }

  /** The same of one lookup, whose bus index may be any. */
  lemma LookupMeans(cfg: Config, entries: seq<DeviceConfig>, e: nat, b: nat, d: nat, f: nat)
    ensures var r := Lookup(cfg, entries, e, b, d, f);
            if && e < |entries| && d < 32 && f < 8
               && (entries[e].startBus + b) % 0x1_0000_0000_0000_0000 < entries[e].endBus
            then
              var bus := (entries[e].startBus + b) % 0x1_0000_0000_0000_0000;
              var busAddress: Addr := (entries[e].base + bus * 0x10_0000) % 0x1_0000_0000_0000_0000;
              var deviceAddress: Addr := (busAddress + d * 0x8000) % 0x1_0000_0000_0000_0000;
              var a: Addr := (deviceAddress + f * 0x1000) % 0x1_0000_0000_0000_0000;
              if cfg(busAddress) == 0 || cfg(busAddress) == 0xffff || cfg(deviceAddress) == 0
                 || cfg(deviceAddress) == 0xffff || cfg(a) == 0 || cfg(a) == 0xffff
              then r == None else r == Some(a)
            else r == None
  {
    hide BusAddress, DeviceAddress, FunctionAddress;
    if e < |entries| {
      var bus := (entries[e].startBus + b) % 0x1_0000_0000_0000_0000;
      OffsetsMean(entries[e].base, bus, d, f);
      OffsetsMean(BusAddress(entries[e].base, bus), bus, d, f);
      OffsetsMean(DeviceAddress(BusAddress(entries[e].base, bus), d), bus, d, f);
    }
  }

  lemma OffsetsMean(a: Addr, bus: nat, d: nat, f: nat)
    ensures BusAddress(a, bus) == (a + bus * 0x10_0000) % 0x1_0000_0000_0000_0000
    ensures DeviceAddress(a, d) == (a + d * 0x8000) % 0x1_0000_0000_0000_0000
    ensures FunctionAddress(a, f) == (a + f * 0x1000) % 0x1_0000_0000_0000_0000
  {
  }

  lemma KeyOfEntry(e: nat)
    ensures Key(e, 0, 0, 0) == e * 65536
  {
  }

  lemma AllPresent(cfg: Config, entries: seq<DeviceConfig>)
    ensures forall a :: a in Found(cfg, entries, 0, Key(|entries|, 0, 0, 0)) ==> cfg(a) != 0 && cfg(a) != 0xffff
  {
    hide Found, Key;
    KeyOfEntry(|entries|);
    forall a | a in Found(cfg, entries, 0, Key(|entries|, 0, 0, 0)) ensures cfg(a) != 0 && cfg(a) != 0xffff {
      var _, _, _, _ := FoundIsPresent(cfg, entries, a);
    }
  }

  lemma LookupRecorded(cfg: Config, entries: seq<DeviceConfig>, e: nat, b: nat, d: nat, f: nat)
    requires b < 256 && Lookup(cfg, entries, e, b, d, f).Some?
    ensures Lookup(cfg, entries, e, b, d, f).value in Found(cfg, entries, 0, Key(|entries|, 0, 0, 0))
  {
    hide Lookup, Key, Found;
    FoundIffLookup(cfg, entries, Lookup(cfg, entries, e, b, d, f).value);
  }

  lemma LookupRange(cfg: Config, entries: seq<DeviceConfig>, e: nat, b: nat, d: nat, f: nat)
    requires b < 256 && Lookup(cfg, entries, e, b, d, f).Some?
    ensures e < |entries| && d < 32 && f < 8 && Key(e, b, d, f) < Key(|entries|, 0, 0, 0)
  {
  }

  // ----- Which lookups the scan agrees with -----

  /** The allocations stay apart even when each is taken to begin at bus 0. */
  ghost predicate SeparateFromBus0(entries: seq<DeviceConfig>) {
    && (forall i :: 0 <= i < |entries| ==> High(entries[i]) <= W64)
    && (forall i, j :: 0 <= i < j < |entries| ==>
          High(entries[i]) <= entries[j].base || High(entries[j]) <= entries[i].base)
  }

  /** A function that the lookup finds is one that the scan finds exactly when the bus index did
      not wrap around. */
  lemma RecordedApart(cfg: Config, entries: seq<DeviceConfig>, e: nat, b: nat, d: nat, f: nat)
    requires SeparateFromBus0(entries) && b < W64 && Lookup(cfg, entries, e, b, d, f).Some?
    ensures e < |entries|
    ensures Lookup(cfg, entries, e, b, d, f).value in Found(cfg, entries, 0, Key(|entries|, 0, 0, 0))
            <==> b < W64 - entries[e].startBus
  {
    hide Lookup, Found, Key;
    LookupBus(cfg, entries, e, b, d, f);
    var a := Lookup(cfg, entries, e, b, d, f).value;
    FoundIffLookup(cfg, entries, a);
    if b < W64 - entries[e].startBus {
      assert b < 256;
    } else if e': nat, b': nat, d': nat, f': nat :| b' < 256 && Lookup(cfg, entries, e', b', d', f') == Some(a) {
      WrappedBelow(cfg, entries, e, b, d, f);
      LookupEntry(cfg, entries, e', b', d', f');
      FoundAddress(cfg, entries, e', b', d', f');
      NotBoth(entries, e, e', a);
    }
  }

  /** The regions begin at multiples of one bus and do not wrap around. */
  ghost predicate OnBusBoundaries(entries: seq<DeviceConfig>) {
    forall i :: 0 <= i < |entries| ==> entries[i].base % 0x10_0000 == 0 && High(entries[i]) <= W64
  }

  /** Where a wrapped bus index leads. */
  function WrappedBus(c: DeviceConfig, b: nat): nat
    requires W64 - c.startBus <= b < W64
  {
    c.base + (c.startBus + b - W64) * 0x10_0000
  }

  /** Whether or not the allocations share addresses: a function that the lookup finds is one that
      the scan finds exactly when the bus index did not wrap around, or leads into the region of some
      allocation all the same. */
  lemma RecordedIff(cfg: Config, entries: seq<DeviceConfig>, e: nat, b: nat, d: nat, f: nat)
    requires OnBusBoundaries(entries) && b < W64 && Lookup(cfg, entries, e, b, d, f).Some?
    ensures e < |entries|
    ensures Lookup(cfg, entries, e, b, d, f).value in Found(cfg, entries, 0, Key(|entries|, 0, 0, 0))
            <==> b < W64 - entries[e].startBus ||
                 exists c :: c in entries && Low(c) <= WrappedBus(entries[e], b) < High(c)
  {
    hide Lookup, Found, Key, Low, High;
    LookupBus(cfg, entries, e, b, d, f);
    var a := Lookup(cfg, entries, e, b, d, f).value;
    FoundIffLookup(cfg, entries, a);
    if b < W64 - entries[e].startBus {
      assert b < 256;
    } else {
      if c :| c in entries && Low(c) <= WrappedBus(entries[e], b) < High(c) {
        var j :| 0 <= j < |entries| && entries[j] == c;
        SameFunction(cfg, entries, e, b, d, f, j);
      }
      if e': nat, b': nat, d': nat, f': nat :| b' < 256 && Lookup(cfg, entries, e', b', d', f') == Some(a) {
        LookupEntry(cfg, entries, e', b', d', f');
        SameRegion(cfg, entries, e, b, d, f, e', b', d', f');
        assert entries[e'] in entries;
      }
    }
  }

  /** The address of a wrapped lookup, and the bus it is on. */
  lemma WrappedAddress(cfg: Config, entries: seq<DeviceConfig>, e: nat, b: nat, d: nat, f: nat)
    requires e < |entries| && W64 - entries[e].startBus <= b < W64 && High(entries[e]) <= W64
    requires Lookup(cfg, entries, e, b, d, f).Some?
    ensures d < 32 && f < 8 && WrappedBus(entries[e], b) < W64
    ensures Lookup(cfg, entries, e, b, d, f).value == WrappedBus(entries[e], b) + d * 0x8000 + f * 0x1000
    ensures Lookup(cfg, entries, e, b, d, f) == LookupOn(cfg, WrappedBus(entries[e], b), d, f)
  {
    hide Lookup, LookupOn;
    LookupBus(cfg, entries, e, b, d, f);
    var c := entries[e].(startBus := 0);
    var bus: nat := entries[e].startBus + b - W64;
    LookupBus(cfg, [c], 0, bus, d, f);
    FoundAddress(cfg, [c], 0, bus, d, f);
    LookupByBus(cfg, [c], 0, bus, d, f);
    Small(c.base, bus * 0x10_0000);
  }

  /** The lookup from the address of the bus on. */
  function LookupOn(cfg: Config, busAddress: Addr, d: nat, f: nat): Option<Addr> {
    if d >= 32 || f >= 8 || !Present(cfg(busAddress)) then None
    else
      var deviceAddress := DeviceAddress(busAddress, d);
      var functionAddress := FunctionAddress(deviceAddress, f);
      if Present(cfg(deviceAddress)) && Present(cfg(functionAddress)) then Some(functionAddress) else None
  }

  lemma LookupByBus(cfg: Config, entries: seq<DeviceConfig>, e: nat, b: nat, d: nat, f: nat)
    requires e < |entries| && b < 256 && entries[e].startBus + b < entries[e].endBus
    ensures Lookup(cfg, entries, e, b, d, f)
            == LookupOn(cfg, BusAddress(entries[e].base, entries[e].startBus + b), d, f)
  {
    hide Present, BusAddress, DeviceAddress, FunctionAddress;
  }

  /** In whose region the wrapped bus lies, that allocation has the same function. */
  lemma SameFunction(cfg: Config, entries: seq<DeviceConfig>, e: nat, b: nat, d: nat, f: nat, j: nat)
    requires OnBusBoundaries(entries) && e < |entries| && W64 - entries[e].startBus <= b < W64
    requires Lookup(cfg, entries, e, b, d, f).Some? && j < |entries|
    requires Low(entries[j]) <= WrappedBus(entries[e], b) < High(entries[j])
    ensures Lookup(cfg, entries, e, b, d, f).value in Found(cfg, entries, 0, Key(|entries|, 0, 0, 0))
  {
    hide Lookup, LookupOn, Found, Key;
    WrappedAddress(cfg, entries, e, b, d, f);
    var x := WrappedBus(entries[e], b);
    var bus := BusOf(entries[e], b, entries[j]);
    var b' := bus - entries[j].startBus;
    LookupByBus(cfg, entries, j, b', d, f);
    Small(entries[j].base, bus * 0x10_0000);
    LookupRecorded(cfg, entries, j, b', d, f);
  }

  lemma BusOf(c: DeviceConfig, b: nat, c': DeviceConfig) returns (bus: nat)
    requires c.base % 0x10_0000 == 0 && c'.base % 0x10_0000 == 0 && W64 - c.startBus <= b < W64
    requires Low(c') <= WrappedBus(c, b) < High(c')
    ensures c'.startBus <= bus < c'.endBus && WrappedBus(c, b) == c'.base + bus * 0x10_0000
  {
    var m, n := c.base / 0x10_0000, c'.base / 0x10_0000;
    assert c.base == m * 0x10_0000 && c'.base == n * 0x10_0000;
    bus := m + (c.startBus + b - W64) - n;
  }

  lemma SameRegion(cfg: Config, entries: seq<DeviceConfig>, e: nat, b: nat, d: nat, f: nat,
                   e': nat, b': nat, d': nat, f': nat)
    requires OnBusBoundaries(entries) && e < |entries| && W64 - entries[e].startBus <= b < W64
    requires Lookup(cfg, entries, e, b, d, f).Some?
    requires e' < |entries| && b' < 256 && Lookup(cfg, entries, e', b', d', f') == Lookup(cfg, entries, e, b, d, f)
    ensures Low(entries[e']) <= WrappedBus(entries[e], b) < High(entries[e'])
  {
    hide Lookup;
    WrappedAddress(cfg, entries, e, b, d, f);
    LookupValue(cfg, entries, e', b', d', f');
    FoundAddress(cfg, entries, e', b', d', f');
    SameBus(entries[e], b, entries[e'], b', d * 0x8000 + f * 0x1000, d' * 0x8000 + f' * 0x1000);
  }

  lemma SameBus(c: DeviceConfig, b: nat, c': DeviceConfig, b': nat, o: nat, o': nat)
    requires c.base % 0x10_0000 == 0 && c'.base % 0x10_0000 == 0 && W64 - c.startBus <= b < W64
    requires o < 0x10_0000 && o' < 0x10_0000
    requires WrappedBus(c, b) + o == Low(c') + b' * 0x10_0000 + o'
    ensures WrappedBus(c, b) == Low(c') + b' * 0x10_0000
  {
    var m, n := c.base / 0x10_0000, c'.base / 0x10_0000;
    assert c.base == m * 0x10_0000 && c'.base == n * 0x10_0000;
    var x, y: nat := m + (c.startBus + b - W64), n + c'.startBus + b';
    assert x * 0x10_0000 + o == y * 0x10_0000 + o';
  }

  /** A wrapped bus index gives an address below the allocation's first bus. */
  lemma WrappedBelow(cfg: Config, entries: seq<DeviceConfig>, e: nat, b: nat, d: nat, f: nat)
    requires e < |entries| && W64 - entries[e].startBus <= b < W64 && High(entries[e]) <= W64
    requires Lookup(cfg, entries, e, b, d, f).Some?
    ensures entries[e].base <= Lookup(cfg, entries, e, b, d, f).value < Low(entries[e])
    ensures Lookup(cfg, entries, e, b, d, f).value < High(entries[e])
  {
    hide Lookup;
    LookupBus(cfg, entries, e, b, d, f);
    var c := entries[e].(startBus := 0);
    var bus: nat := entries[e].startBus + b - W64;
    LookupBus(cfg, [c], 0, bus, d, f);
    FoundAddress(cfg, [c], 0, bus, d, f);
    LowerBus(bus, d, f, entries[e].startBus);
  }

  lemma LowerBus(bus: nat, d: nat, f: nat, start: nat)
    requires bus < start && d < 32 && f < 8
    ensures bus * 0x10_0000 + d * 0x8000 + f * 0x1000 < start * 0x10_0000
  {
  }

  lemma NotBoth(entries: seq<DeviceConfig>, i: nat, j: nat, a: nat)
    requires SeparateFromBus0(entries) && i < |entries| && j < |entries|
    requires entries[i].base <= a < Low(entries[i]) && a < High(entries[i])
    ensures !(Low(entries[j]) <= a < High(entries[j]))
  {
  }

  /** A wrapped bus index can find a function that the scan does not find. */
  lemma WrappedUnrecorded()
    ensures var cfg: Config, entries := _ => 1, [DeviceConfig(0, 1, 2)];
            && Lookup(cfg, entries, 0, W64 - 1, 0, 0) == Some(0)
            && 0 !in Found(cfg, entries, 0, Key(1, 0, 0, 0))
  {
    var cfg: Config, entries := _ => 1, [DeviceConfig(0, 1, 2)];
    assert Lookup(cfg, entries, 0, W64 - 1, 0, 0) == Some(0);
    RecordedApart(cfg, entries, 0, W64 - 1, 0, 0);
  }

  /** Without the distance down to bus 0, a wrapped bus index can also lead into another allocation,
      where the scan does find the function. */
  lemma WrappedRecorded()
    ensures var cfg: Config, entries := _ => 1, [DeviceConfig(0, 0, 5), DeviceConfig(0, 5, 10)];
            && Separate(entries)
            && Lookup(cfg, entries, 1, W64 - 5, 0, 0) == Some(0)
            && 0 in Found(cfg, entries, 0, Key(2, 0, 0, 0))
  {
    var cfg: Config, entries := _ => 1, [DeviceConfig(0, 0, 5), DeviceConfig(0, 5, 10)];
    assert Lookup(cfg, entries, 0, 0, 0, 0) == Some(0);
    LookupRecorded(cfg, entries, 0, 0, 0, 0);
    assert Lookup(cfg, entries, 1, W64 - 5, 0, 0) == Some(0);
  }

  // ----- The last bus -----

  /** The allocation with its last bus counted in. */
  function Inclusive(c: DeviceConfig): DeviceConfig {
    if c.endBus == 0x100 then c else c.(endBus := c.endBus + 1)
  }

  function AllInclusive(entries: seq<DeviceConfig>): seq<DeviceConfig> {
    seq(|entries|, i requires 0 <= i < |entries| => Inclusive(entries[i]))
  }

  /** The last bus has nothing at its first function. */
  predicate LastBusAbsent(cfg: Config, c: DeviceConfig) {
    c.startBus <= c.endBus ==> !Present(cfg(BusAddress(c.base, c.endBus)))
  }

  /** Counting the last bus in changes lookups on it only, and none if it is absent. */
  lemma LookupInclusive(cfg: Config, entries: seq<DeviceConfig>, e: nat, b: nat, d: nat, f: nat)
    requires b < 256 && forall i :: 0 <= i < |entries| ==> entries[i].endBus < 0x100
    ensures var r, r' := Lookup(cfg, entries, e, b, d, f), Lookup(cfg, AllInclusive(entries), e, b, d, f);
            && (r.Some? ==> r' == r)
            && (e < |entries| && LastBusAbsent(cfg, entries[e]) ==> r' == r)
  {
    hide Present, BusAddress, DeviceAddress, FunctionAddress;
  }

  lemma LookupLastBus(cfg: Config, entries: seq<DeviceConfig>, e: nat) returns (k: nat)
    requires forall i :: 0 <= i < |entries| ==> entries[i].endBus < 0x100
    requires e < |entries| && !LastBusAbsent(cfg, entries[e])
    ensures k < Key(|entries|, 0, 0, 0)
    ensures At(cfg, entries, k).None? && At(cfg, AllInclusive(entries), k).Some?
  {
    hide At, Lookup, LookupOn, Key, BusAddress;
    var b: nat := entries[e].endBus - entries[e].startBus;
    k := Key(e, b, 0, 0);
    AtKey(cfg, entries, e, b, 0, 0);
    AtKey(cfg, AllInclusive(entries), e, b, 0, 0);
    NotPastEnd(cfg, entries, e, b);
    LookupByBus(cfg, AllInclusive(entries), e, b, 0, 0);
    FirstFunction(cfg, BusAddress(entries[e].base, entries[e].endBus));
    WithinEntries(e, b, |entries|);
  }

  lemma NotPastEnd(cfg: Config, entries: seq<DeviceConfig>, e: nat, b: nat)
    requires e < |entries| && entries[e].startBus + b == entries[e].endBus
    ensures Lookup(cfg, entries, e, b, 0, 0).None?
  {
    hide Present, BusAddress, DeviceAddress, FunctionAddress;
  }

  lemma FirstFunction(cfg: Config, a: Addr)
    requires Present(cfg(a))
    ensures LookupOn(cfg, a, 0, 0).Some?
  {
    assert DeviceAddress(a, 0) == a && FunctionAddress(a, 0) == a;
  }

  lemma WithinEntries(e: nat, b: nat, n: nat)
    requires e < n && b < 256
    ensures Key(e, b, 0, 0) < Key(n, 0, 0, 0)
  {
  }

  /** More places with a result, more hits. */
  lemma {:induction false} HitsCompare(cfg: Config, entries: seq<DeviceConfig>, entries': seq<DeviceConfig>, n: nat)
    requires forall k: nat :: k < n && At(cfg, entries, k).Some? ==> At(cfg, entries', k).Some?
    ensures var h, h' := Hits(cfg, entries, 0, n), Hits(cfg, entries', 0, n);
            && |h| <= |h'|
            && (|h| == |h'| ==> h == h')
            && (|h| == |h'| ==> forall k: nat :: k < n ==> At(cfg, entries, k).Some? == At(cfg, entries', k).Some?)
  {
    hide At;
    if n == 0 {
    } else {
      HitsCompare(cfg, entries, entries', n - 1);
    }
  }

  /** Not scanning `EndBus` itself makes no difference exactly when the first function of that bus
      is absent in every allocation. */
  lemma LastBusIff(cfg: Config, entries: seq<DeviceConfig>)
    requires forall i :: 0 <= i < |entries| ==> entries[i].endBus < 0x100
    ensures var n := Key(|entries|, 0, 0, 0);
            Found(cfg, entries, 0, n) == Found(cfg, AllInclusive(entries), 0, n)
            <==> forall e :: 0 <= e < |entries| ==> LastBusAbsent(cfg, entries[e])
  {
    hide Lookup, Key, LastBusAbsent, Hits;
    var n, entries' := Key(|entries|, 0, 0, 0), AllInclusive(entries);
    forall k: nat | k < n && At(cfg, entries, k).Some? ensures At(cfg, entries', k).Some? {
      AtSame(cfg, entries, k);
    }
    HitsCompare(cfg, entries, entries', n);
    if e :| 0 <= e < |entries| && !LastBusAbsent(cfg, entries[e]) {
      var k := LookupLastBus(cfg, entries, e);
      assert |Hits(cfg, entries, 0, n)| != |Hits(cfg, entries', 0, n)|;
    } else {
      forall k: nat | k < n ensures At(cfg, entries, k) == At(cfg, entries', k) {
        BelowEnd(entries, k);
        AtSame(cfg, entries, k);
      }
      SameFound(cfg, entries, entries', n);
    }
  }

  lemma BelowEnd(entries: seq<DeviceConfig>, k: nat)
    requires k < Key(|entries|, 0, 0, 0)
    ensures k / 65536 < |entries|
  {
  }

  lemma SameFound(cfg: Config, entries: seq<DeviceConfig>, entries': seq<DeviceConfig>, n: nat)
    requires forall k: nat :: k < n ==> At(cfg, entries, k) == At(cfg, entries', k)
    ensures Found(cfg, entries, 0, n) == Found(cfg, entries', 0, n)
  {
    hide At, Hits;
    HitsCompare(cfg, entries, entries', n);
    HitsCompare(cfg, entries', entries, n);
    HitsExactly(cfg, entries, 0, n);
    var h := Hits(cfg, entries, 0, n);
    assert forall i :: 0 <= i < |h| ==> h[i] in h;
  }

  lemma AtSame(cfg: Config, entries: seq<DeviceConfig>, k: nat)
    requires forall i :: 0 <= i < |entries| ==> entries[i].endBus < 0x100
    ensures At(cfg, entries, k).Some? ==> At(cfg, AllInclusive(entries), k) == At(cfg, entries, k)
    ensures k / 65536 < |entries| && LastBusAbsent(cfg, entries[k / 65536]) ==>
              At(cfg, AllInclusive(entries), k) == At(cfg, entries, k)
  {
    hide Lookup, LastBusAbsent;
    LookupInclusive(cfg, entries, k / 65536, k / 256 % 256, k / 8 % 32, k % 8);
  }
}
