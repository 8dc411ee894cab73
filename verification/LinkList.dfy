/** The intrusive circular lists of gnu-efi/inc/efilink.h. */
module LinkList {

  class ListEntry {
    var Flink: ListEntry?
    var Blink: ListEntry?

    constructor ()
      ensures Flink == null && Blink == null
    {
      Flink, Blink := null, null;
    }
  }

  ghost predicate Linked(a: ListEntry, b: ListEntry)
    reads a, b
  {
    a.Flink == b && b.Blink == a
  }

  predicate Distinct(r: seq<ListEntry>) {
    forall i, j :: 0 <= i < j < |r| ==> r[i] != r[j]
  }

  /** The entries `r`, in order, form one circular doubly linked list. */
  ghost predicate Ring(r: seq<ListEntry>)
    reads r
  {
    && r != []
    && Distinct(r)
    && (forall i :: 0 <= i < |r| - 1 ==> Linked(r[i], r[i + 1]))
    && Linked(r[|r| - 1], r[0])
  }

  method InitializeListHead(listHead: ListEntry)
    modifies listHead
    ensures Ring([listHead])
  {
    listHead.Flink := listHead;
    listHead.Blink := listHead;
  }

  function Without(r: seq<ListEntry>, k: nat): seq<ListEntry>
    requires k < |r|
  {
    r[..k] + r[k + 1..]
  }

  method RemoveEntryList(entry: ListEntry, ghost r: seq<ListEntry>, ghost k: nat)
    requires Ring(r) && 0 < k < |r| && r[k] == entry
    modifies r[k - 1], if k + 1 < |r| then r[k + 1] else r[0]
    ensures Ring(Without(r, k))
    ensures entry.Flink == old(entry.Flink) && entry.Blink == old(entry.Blink)
  {
    var flink := entry.Flink;
    var blink := entry.Blink;
    assert Linked(r[k - 1], r[k - 1 + 1]);
    assert k + 1 < |r| ==> Linked(r[k], r[k + 1]);
    blink.Flink := flink;
    flink.Blink := blink;
  }

  method InsertTailList(listHead: ListEntry, entry: ListEntry, ghost r: seq<ListEntry>)
    requires Ring(r) && r[0] == listHead && entry !in r
    modifies r[|r| - 1], r[0], entry
    ensures Ring(r + [entry])
  {
    var blink := listHead.Blink;
    entry.Flink := listHead;
    entry.Blink := blink;
    blink.Flink := entry;
    listHead.Blink := entry;
  }

  method InsertHeadList(listHead: ListEntry, entry: ListEntry, ghost r: seq<ListEntry>)
    requires Ring(r) && r[0] == listHead && entry !in r
    modifies r[0], if |r| > 1 then r[1] else r[0], entry
    ensures Ring([listHead, entry] + r[1..])
  {
    assert |r| > 1 ==> Linked(r[0], r[0 + 1]);
    var flink := listHead.Flink;
    entry.Flink := flink;
    entry.Blink := listHead;
    flink.Blink := entry;
    listHead.Flink := entry;
  }

  // ----- SwapListEntries -----

  /** The entry at `j` can be moved before the entry at `i`: they differ, and the one is not
      already directly before the other. */
  predicate Movable(n: nat, i: nat, j: nat) {
    i != j && (if j + 1 == n then 0 else j + 1) != i
  }

  /** The ring with the entry at `j` taken out and put in before the entry at `i`; before the
      head means at the tail, and an entry does not move before itself. */
  function Moved(r: seq<ListEntry>, i: nat, j: nat): (m: seq<ListEntry>)
    requires i < |r| && 0 < j < |r|
    ensures |m| == |r|
  {
    if i == j then r
    else if i == 0 then Without(r, j) + [r[j]]
    else if i < j then r[..i] + [r[j]] + r[i..j] + r[j + 1..]
    else r[..j] + r[j + 1..i] + [r[j]] + r[i..]
  }

  function InsertedBefore(r: seq<ListEntry>, k: nat, e: ListEntry): seq<ListEntry>
    requires k < |r|
  {
    if k == 0 then r + [e] else r[..k] + [e] + r[k..]
  }

  function PlaceAfterRemoval(i: nat, j: nat): nat
    requires i != j
  {
    if i < j then i else i - 1
  }

  lemma MovedIsReinserted(r: seq<ListEntry>, i: nat, j: nat)
    requires i < |r| && 0 < j < |r| && i != j
    ensures Moved(r, i, j) == InsertedBefore(Without(r, j), PlaceAfterRemoval(i, j), r[j])
    ensures var q, k := Without(r, j), PlaceAfterRemoval(i, j);
            && k < |q| && q[k] == r[i]
            && (Movable(|r|, i, j) ==>
                  (if k > 0 then q[k - 1] else q[|q| - 1]) == (if i > 0 then r[i - 1] else r[|r| - 1]))
  {
    var q := Without(r, j);
    if i > 0 && i < j {
      assert q[..i] == r[..i] && q[i..] == r[i..j] + r[j + 1..];
    } else if i > 0 {
      assert q[..i - 1] == r[..j] + r[j + 1..i] && q[i - 1..] == r[i..];
    }
    PlaceOf(r, i, j);
  }

  lemma PlaceOf(r: seq<ListEntry>, i: nat, j: nat)
    requires i < |r| && 0 < j < |r| && i != j
    ensures var q, k := Without(r, j), PlaceAfterRemoval(i, j);
            && k < |q| && q[k] == r[i]
            && (Movable(|r|, i, j) ==>
                  (if k > 0 then q[k - 1] else q[|q| - 1]) == (if i > 0 then r[i - 1] else r[|r| - 1]))
  {
    WithoutAt(r, j);
  }

  lemma WithoutAt(r: seq<ListEntry>, j: nat)
    requires j < |r|
    ensures |Without(r, j)| == |r| - 1
    ensures forall k :: 0 <= k < |r| - 1 ==> Without(r, j)[k] == if k < j then r[k] else r[k + 1]
  {
  }

  lemma WithoutDistinct(r: seq<ListEntry>, j: nat)
    requires Distinct(r) && j < |r|
    ensures Distinct(Without(r, j)) && r[j] !in Without(r, j)
    ensures forall x :: x in Without(r, j) ==> x in r
  {
  }

  /** The four stores that put `e` between `prev` and `next`. When those are neighbours in a
      ring without `e`, the result is that ring with `e` in it; when `e` is itself one of the
      two, it ends up linked to itself. */
  method LinkBetween(e: ListEntry, prev: ListEntry, next: ListEntry,
                     ghost fits: bool, ghost r: seq<ListEntry>, ghost k: nat)
    requires fits ==> Ring(r) && k < |r| && e !in r && next == r[k]
    requires fits ==> prev == if k > 0 then r[k - 1] else r[|r| - 1]
    modifies e, prev, next
    ensures fits ==> Ring(InsertedBefore(r, k, e))
    ensures !fits && (e == prev || e == next) ==> e.Flink == e
  {
    assert fits && k > 0 ==> Linked(r[k - 1], r[k - 1 + 1]);
    e.Flink := next;
    e.Blink := prev;
    prev.Flink := e;
    next.Blink := e;
    if fits {
      if k > 0 { InsertedDistinct(r, k, e); }
    }
  }

  lemma InsertedDistinct(r: seq<ListEntry>, k: nat, e: ListEntry)
    requires Distinct(r) && k < |r| && e !in r
    ensures Distinct(InsertedBefore(r, k, e))
  {
  }

  /** Moves Entry2 to before Entry1, exactly when they differ and Entry2 is not there already;
      otherwise Entry2 ends up linked to itself, and no longer in a ring with the others. */
  method SwapListEntries(entry1: ListEntry, entry2: ListEntry, ghost r: seq<ListEntry>, ghost i: nat, ghost j: nat)
    requires Ring(r) && i < |r| && 0 < j < |r| && r[i] == entry1 && r[j] == entry2
    modifies r
    ensures Ring(Moved(r, i, j)) <==> old(entry1 != entry2 && entry1.Blink != entry2)
    ensures old(entry1 == entry2 || entry1.Blink == entry2) ==> entry2.Flink == entry2
  {
    hide Distinct, Moved, Without, InsertedBefore;
    var entry1Blink := entry1.Blink;
    MovableIff(r, i, j);
    Neighbours(r, i);
    Neighbours(r, j);
    RemoveEntryList(entry2, r, j);
    WithoutDistinct(r, j);
    ghost var q := Without(r, j);
    ghost var fits := Movable(|r|, i, j);
    ghost var k := if fits then PlaceAfterRemoval(i, j) else 0;
    if fits {
      MovedIsReinserted(r, i, j);
    }
    LinkBetween(entry2, entry1Blink, entry1, fits, q, k);
    if !fits {
      StillThere(r, i, j);
      AloneOrBroken(Moved(r, i, j), entry2);
    }
  }

  /** A list of one entry, which is directly before the head already: moving it there takes it out
      of the list. */
  method MoveLastToEnd() returns (head: ListEntry, entry: ListEntry)
    ensures head != entry && entry.Flink == entry && !Ring([head, entry])
  {
    head := new ListEntry();
    entry := new ListEntry();
    InitializeListHead(head);
    InsertTailList(head, entry, [head]);
    ghost var r := [head] + [entry];
    assert r[0] == head && r[1] == entry && [head, entry] == r;
    Neighbours(r, 0);
    SwapListEntries(head, entry, r, 0, 1);
    AloneOrBroken(r, entry);
  }

  /** Movable in terms of the entries and their links. */
  lemma MovableIff(r: seq<ListEntry>, i: nat, j: nat)
    requires Ring(r) && i < |r| && 0 < j < |r|
    ensures Movable(|r|, i, j) <==> r[i] != r[j] && r[i].Blink != r[j]
  {
    Neighbours(r, i);
  }

  lemma StillThere(r: seq<ListEntry>, i: nat, j: nat)
    requires i < |r| && 0 < j < |r|
    ensures r[j] in Moved(r, i, j)
  {
    if i == j {
    } else if i == 0 {
      assert Moved(r, i, j)[|r| - 1] == r[j];
    } else if i < j {
      assert Moved(r, i, j)[i] == r[j];
    } else {
      assert Moved(r, i, j)[i - 1] == r[j];
    }
  }

  lemma AloneOrBroken(q: seq<ListEntry>, e: ListEntry)
    requires e in q && |q| > 1 && e.Flink == e
    ensures !Ring(q)
  {
    if Ring(q) { SelfLinkedIsAlone(q, e); }
  }

  lemma Neighbours(r: seq<ListEntry>, k: nat)
    requires Ring(r) && k < |r|
    ensures r[k].Flink == (if k + 1 < |r| then r[k + 1] else r[0])
    ensures r[k].Blink == (if k > 0 then r[k - 1] else r[|r| - 1])
  {
    if k > 0 { assert Linked(r[k - 1], r[k - 1 + 1]); }
    if k + 1 < |r| { assert Linked(r[k], r[k + 1]); }
  }

  /** An entry linked to itself is in no ring with other entries. */
  lemma SelfLinkedIsAlone(q: seq<ListEntry>, e: ListEntry)
    requires Ring(q) && e in q && e.Flink == e
    ensures q == [e]
  {
    var k :| 0 <= k < |q| && q[k] == e;
    Neighbours(q, k);
  }

  // ----- Runs -----

  datatype Op =
    | PushHead(e: ListEntry)
    | PushTail(e: ListEntry)
    | Remove(e: ListEntry)
    | MoveBefore(e1: ListEntry, e2: ListEntry)

  function IndexOf(r: seq<ListEntry>, e: ListEntry): (k: nat)
    requires e in r
    ensures k < |r| && r[k] == e
  {
    if r[0] == e then 0 else 1 + IndexOf(r[1..], e)
  }

  /** What each operation asks of its caller, in terms of the ring (head first). */
  predicate Allowed(r: seq<ListEntry>, op: Op)
    requires r != []
  {
    match op
    case PushHead(e) => e !in r
    case PushTail(e) => e !in r
    case Remove(e) => e in r[1..]
    case MoveBefore(e1, e2) => e1 in r && e2 in r[1..] && Movable(|r|, IndexOf(r, e1), 1 + IndexOf(r[1..], e2))
  }

  /** What each operation does to the list of entries. */
  function Apply(r: seq<ListEntry>, op: Op): (r': seq<ListEntry>)
    requires r != [] && Allowed(r, op)
    ensures r' != [] && r'[0] == r[0]
  {
    match op
    case PushHead(e) => [r[0], e] + r[1..]
    case PushTail(e) => r + [e]
    case Remove(e) => Without(r, 1 + IndexOf(r[1..], e))
    case MoveBefore(e1, e2) => Moved(r, IndexOf(r, e1), 1 + IndexOf(r[1..], e2))
  }

  predicate AllAllowed(r: seq<ListEntry>, ops: seq<Op>)
    requires r != []
    decreases |ops|
  {
    ops == [] || (Allowed(r, ops[0]) && AllAllowed(Apply(r, ops[0]), ops[1..]))
  }

  function ApplyAll(r: seq<ListEntry>, ops: seq<Op>): seq<ListEntry>
    requires r != [] && AllAllowed(r, ops)
    decreases |ops|
  {
    if ops == [] then r else ApplyAll(Apply(r, ops[0]), ops[1..])
  }

  /** The entries a run brings in. */
  function Brought(ops: seq<Op>): set<ListEntry> {
    if ops == [] then {}
    else (if ops[0].PushHead? || ops[0].PushTail? then {ops[0].e} else {}) + Brought(ops[1..])
  }

  function Entries(r: seq<ListEntry>): set<ListEntry> {
    set x | x in r
  }

  method Step(listHead: ListEntry, op: Op, ghost r: seq<ListEntry>)
    requires Ring(r) && r[0] == listHead && Allowed(r, op)
    modifies Entries(r) + if op.PushHead? || op.PushTail? then {op.e} else {}
    ensures Ring(Apply(r, op))
  {
    match op
    case PushHead(e) => InsertHeadList(listHead, e, r);
    case PushTail(e) => InsertTailList(listHead, e, r);
    case Remove(e) => RemoveEntryList(e, r, 1 + IndexOf(r[1..], e));
    case MoveBefore(e1, e2) =>
      MovableIff(r, IndexOf(r, e1), 1 + IndexOf(r[1..], e2));
      SwapListEntries(e1, e2, r, IndexOf(r, e1), 1 + IndexOf(r[1..], e2));
  }

  /** Every run keeps the list a well-formed ring with exactly the entries, in the order, that
      the sequence of operations says. */
  method Run(listHead: ListEntry, ops: seq<Op>, ghost r: seq<ListEntry>)
    requires r != [] && r[0] == listHead && Ring(r) && AllAllowed(r, ops)
    modifies Entries(r) + Brought(ops)
    ensures Ring(ApplyAll(r, ops))
  {
    hide Apply, Allowed, Ring;
    ghost var q := r;
    for i := 0 to |ops|
      invariant q != [] && q[0] == listHead && Ring(q) && AllAllowed(q, ops[i..])
      invariant Entries(q) + Brought(ops[i..]) <= Entries(r) + Brought(ops)
      invariant ApplyAll(q, ops[i..]) == ApplyAll(r, ops)
    {
      EntriesAfter(q, ops[i]);
      assert ops[i..][1..] == ops[i + 1..];
      assert (if ops[i].PushHead? || ops[i].PushTail? then {ops[i].e} else {}) <= Brought(ops[i..]);
      Step(listHead, ops[i], q);
      q := Apply(q, ops[i]);
    }
  }

  /** A run goes on from where the one before it ended, and an operation by itself is a run. */
  lemma {:induction false} RunConcat(r: seq<ListEntry>, a: seq<Op>, b: seq<Op>)
    requires r != []
    ensures AllAllowed(r, a + b) <==> AllAllowed(r, a) && ApplyAll(r, a) != [] && AllAllowed(ApplyAll(r, a), b)
    ensures AllAllowed(r, a + b) ==> ApplyAll(r, a + b) == ApplyAll(ApplyAll(r, a), b)
    ensures |a| == 1 ==> (AllAllowed(r, a) <==> Allowed(r, a[0]))
    ensures |a| == 1 && Allowed(r, a[0]) ==> ApplyAll(r, a) == Apply(r, a[0])
    decreases |a|
  {
    hide Apply, Allowed;
    if a == [] {
      assert a + b == b;
    } else {
      assert (a + b)[0] == a[0] && (a + b)[1..] == a[1..] + b;
      if Allowed(r, a[0]) {
        RunConcat(Apply(r, a[0]), a[1..], b);
      }
    }
  }

  function Inserted(ops: seq<Op>): multiset<ListEntry> {
    if ops == [] then multiset{}
    else (if ops[0].PushHead? || ops[0].PushTail? then multiset{ops[0].e} else multiset{}) + Inserted(ops[1..])
  }

  function Removed(ops: seq<Op>): multiset<ListEntry> {
    if ops == [] then multiset{}
    else (if ops[0].Remove? then multiset{ops[0].e} else multiset{}) + Removed(ops[1..])
  }

  /** Over a whole run no entry is lost or doubled: those at the end and those removed are those
      at the beginning and those inserted. */
  lemma {:induction false} RunEntries(r: seq<ListEntry>, ops: seq<Op>)
    requires r != [] && AllAllowed(r, ops)
    ensures multiset(ApplyAll(r, ops)) + Removed(ops) == multiset(r) + Inserted(ops)
    decreases |ops|
  {
    hide Apply, Allowed, Inserted, Removed;
    if ops == [] {
      NothingMoved();
    } else {
      var q := Apply(r, ops[0]);
      RunEntries(q, ops[1..]);
      OneOperation(r, ops[0]);
      Balance(multiset(r), multiset(q), multiset(ApplyAll(q, ops[1..])), Inserted([ops[0]]), Removed([ops[0]]),
              Inserted(ops[1..]), Removed(ops[1..]));
      FirstOperation(ops);
    }
  }

  lemma NothingMoved()
    ensures Inserted([]) == multiset{} && Removed([]) == multiset{}
  {
  }

  lemma FirstOperation(ops: seq<Op>)
    requires ops != []
    ensures Inserted(ops) == Inserted([ops[0]]) + Inserted(ops[1..])
    ensures Removed(ops) == Removed([ops[0]]) + Removed(ops[1..])
  {
    assert [ops[0]][1..] == [];
  }

  lemma OneOperation(r: seq<ListEntry>, op: Op)
    requires r != [] && Allowed(r, op)
    ensures multiset(Apply(r, op)) + Removed([op]) == multiset(r) + Inserted([op])
  {
    hide Apply;
    ApplyEntries(r, op);
    assert op.Remove? ==> op.e in r;
    assert [op][1..] == [];
  }

  lemma Balance<T>(x: multiset<T>, y: multiset<T>, z: multiset<T>,
                   in1: multiset<T>, out1: multiset<T>, in2: multiset<T>, out2: multiset<T>)
    requires y + out1 == x + in1 && z + out2 == y + in2
    ensures z + (out1 + out2) == x + (in1 + in2)
  {
    assert z + (out1 + out2) == (z + out2) + out1;
    assert (y + in2) + out1 == (y + out1) + in2;
    assert (x + in1) + in2 == x + (in1 + in2);
  }

  lemma EntriesAfter(r: seq<ListEntry>, op: Op)
    requires r != [] && Allowed(r, op)
    ensures Entries(Apply(r, op)) <= Entries(r) + if op.PushHead? || op.PushTail? then {op.e} else {}
  {
    hide Apply, Allowed;
    ApplyEntries(r, op);
    forall x | x in Apply(r, op) ensures x in r || ((op.PushHead? || op.PushTail?) && x == op.e) {
      assert x in multiset(Apply(r, op));
    }
  }

  lemma WithoutEntry(r: seq<ListEntry>, j: nat)
    requires j < |r|
    ensures multiset(Without(r, j)) == multiset(r) - multiset{r[j]}
  {
    assert r == r[..j] + [r[j]] + r[j + 1..];
  }

  lemma MovedEntries(r: seq<ListEntry>, i: nat, j: nat)
    requires i < |r| && 0 < j < |r| && i != j
    ensures multiset(Moved(r, i, j)) == multiset(r)
  {
    if i == 0 {
      WithoutEntry(r, j);
    } else if i < j {
      assert r == r[..i] + r[i..j] + [r[j]] + r[j + 1..];
      SameEntries(r[..i], r[i..j], [r[j]], r[j + 1..]);
    } else {
      assert r == r[..j] + [r[j]] + r[j + 1..i] + r[i..];
      SameEntries(r[..j], [r[j]], r[j + 1..i], r[i..]);
    }
  }

  lemma SameEntries(a: seq<ListEntry>, b: seq<ListEntry>, c: seq<ListEntry>, d: seq<ListEntry>)
    ensures multiset(a + b + c + d) == multiset(a + c + b + d)
  {
  }

  lemma PushedEntries(r: seq<ListEntry>, e: ListEntry)
    requires r != []
    ensures multiset([r[0], e] + r[1..]) == multiset(r) + multiset{e}
  {
    assert r == [r[0]] + r[1..];
  }

  /** A move keeps the entries; only removals lose one and only insertions add one. */
  lemma ApplyEntries(r: seq<ListEntry>, op: Op)
    requires r != [] && Allowed(r, op)
    ensures multiset(Apply(r, op)) ==
            match op
            case PushHead(e) => multiset(r) + multiset{e}
            case PushTail(e) => multiset(r) + multiset{e}
            case Remove(e) => multiset(r) - multiset{e}
            case MoveBefore(_, _) => multiset(r)
  {
    hide Moved, Without, IndexOf;
    match op
    case PushHead(e) => PushedEntries(r, e);
    case PushTail(e) =>
    case Remove(e) => WithoutEntry(r, 1 + IndexOf(r[1..], e));
    case MoveBefore(e1, e2) => MovedEntries(r, IndexOf(r, e1), 1 + IndexOf(r[1..], e2));
  }
}
