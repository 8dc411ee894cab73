/** Installing several protocol interfaces on a handle (gnu-efi/lib/hand.c). */
module Handles {

  type Handle = nat
  type Guid = nat
  type Interface = nat

  const NULL: Handle := 0
  const TPL_NOTIFY: nat := 16

  datatype Status = Success | InvalidParameter | NotFound | AccessDenied | OutOfResources
  datatype Pair = Pair(protocol: Guid, iface: Interface)

  /** The handle database: the interface of each protocol on each handle. A handle exists as
      long as it has a protocol. */
  type Database = map<(Handle, Guid), Interface>

  predicate Live(db: Database, h: Handle) {
    exists k :: k in db && k.0 == h
  }

  // ----- The boot services used -----

  class BootServices {
    var db: Database
    var tpl: nat
    /** Whether every change so far was asked for with notifications held off. */
    ghost var quiet: bool

    constructor (d: Database, level: nat)
      ensures db == d && tpl == level && quiet
    {
      db, tpl, quiet := d, level, true;
    }

    method RaiseTPL(level: nat) returns (old': nat)
      requires tpl <= level
      modifies this`tpl
      ensures old' == old(tpl) && tpl == level
    {
      old' := tpl;
      tpl := level;
    }

    method RestoreTPL(level: nat)
      requires level <= tpl
      modifies this`tpl
      ensures tpl == level
    {
      tpl := level;
    }

    /** `answer` is an error of the firmware's own, `created` the handle it would make. */
    method InstallProtocolInterface(handle: Handle, p: Pair, answer: Status, created: Handle)
      returns (status: Status, h: Handle)
      requires tpl <= TPL_NOTIFY
      modifies this`db, this`quiet
      ensures quiet == (old(quiet) && tpl == 16)
      ensures status == Success <==> Installable(old(db), handle, p, answer)
      ensures status != Success ==>
                db == old(db) && h == handle && status == if answer != Success then answer else InvalidParameter
      ensures status == Success ==>
                h == (if handle == NULL then created else handle) && db == old(db)[(h, p.protocol) := p.iface]
    {
      quiet := quiet && tpl == TPL_NOTIFY;
      h := handle;
      if answer != Success {
        return answer, h;
      }
      if handle == NULL {
        h := created;
      } else if !Live(db, handle) || (handle, p.protocol) in db {
        return InvalidParameter, h;
      }
      db := db[(h, p.protocol) := p.iface];
      status := Success;
    }

    method UninstallProtocolInterface(handle: Handle, p: Pair, refused: bool) returns (status: Status)
      requires tpl <= TPL_NOTIFY
      modifies this`db, this`quiet
      ensures quiet == (old(quiet) && tpl == 16)
      ensures db == Without(old(db), handle, p, refused)
      ensures status == Success <==> Has(old(db), handle, p) && !refused
    {
      quiet := quiet && tpl == TPL_NOTIFY;
      if !Has(db, handle, p) {
        return NotFound;
      }
      if refused {
        return AccessDenied;
      }
      db := db - {(handle, p.protocol)};
      status := Success;
    }
  }

  predicate Installable(db: Database, handle: Handle, p: Pair, answer: Status) {
    answer == Success && (handle == NULL || (Live(db, handle) && (handle, p.protocol) !in db))
  }

  predicate Has(db: Database, h: Handle, p: Pair) {
    (h, p.protocol) in db && db[(h, p.protocol)] == p.iface
  }

  function Without(db: Database, h: Handle, p: Pair, refused: bool): Database {
    if Has(db, h, p) && !refused then db - {(h, p.protocol)} else db
  }

  // ----- What a list of pairs does to a database -----

  function With(db: Database, h: Handle, pairs: seq<Pair>): Database {
    if pairs == [] then db
    else
      var n := |pairs| - 1;
      With(db, h, pairs[..n])[(h, pairs[n].protocol) := pairs[n].iface]
  }

  function WithoutAll(db: Database, h: Handle, pairs: seq<Pair>, refuses: nat -> bool): Database {
    if pairs == [] then db
    else
      var n := |pairs| - 1;
      Without(WithoutAll(db, h, pairs[..n], refuses), h, pairs[n], refuses(n))
  }

  /** The pairs whose removal the firmware refuses. */
  function Stuck(pairs: seq<Pair>, refuses: nat -> bool): seq<Pair> {
    if pairs == [] then []
    else
      var n := |pairs| - 1;
      Stuck(pairs[..n], refuses) + if refuses(n) then [pairs[n]] else []
  }

  /** One of the pairs that are not refused is `p`. */
  ghost predicate Removes(pairs: seq<Pair>, refuses: nat -> bool, p: Pair) {
    exists i :: 0 <= i < |pairs| && !refuses(i) && pairs[i] == p
  }

  /** Of any database, what is left is every interface on another handle, and every interface on
      this one that no listed and unrefused pair names. */
  lemma {:induction false} Survivors(db: Database, h: Handle, pairs: seq<Pair>, refuses: nat -> bool)
    ensures var w := WithoutAll(db, h, pairs, refuses);
            forall k :: (k in w <==> k in db && !(k.0 == h && Removes(pairs, refuses, Pair(k.1, db[k]))))
                        && (k in w ==> w[k] == db[k])
  {
    hide Removes;
    if pairs == [] {
      forall k | k in db ensures !Removes(pairs, refuses, Pair(k.1, db[k])) {
        RemovesNothing(pairs, refuses, Pair(k.1, db[k]));
      }
    } else {
      var n := |pairs| - 1;
      Survivors(db, h, pairs[..n], refuses);
      forall k | k in db
        ensures Removes(pairs, refuses, Pair(k.1, db[k])) <==>
                Removes(pairs[..n], refuses, Pair(k.1, db[k])) || (!refuses(n) && pairs[n] == Pair(k.1, db[k]))
      {
        RemovesLast(pairs, refuses, Pair(k.1, db[k]));
      }
    }
  }

  lemma RemovesNothing(pairs: seq<Pair>, refuses: nat -> bool, p: Pair)
    requires pairs == []
    ensures !Removes(pairs, refuses, p)
  {
  }

  lemma RemovesLast(pairs: seq<Pair>, refuses: nat -> bool, p: Pair)
    requires pairs != []
    ensures var n := |pairs| - 1;
            Removes(pairs, refuses, p) <==> Removes(pairs[..n], refuses, p) || (!refuses(n) && pairs[n] == p)
  {
    var n := |pairs| - 1;
    if i :| 0 <= i < |pairs[..n]| && !refuses(i) && pairs[..n][i] == p {
      assert pairs[i] == p;
    }
    if i :| 0 <= i < |pairs| && !refuses(i) && pairs[i] == p {
      assert i < n ==> pairs[..n][i] == p;
    }
  }

  /** No pair replaces an interface that is already there. */
  ghost predicate Fresh(db: Database, h: Handle, pairs: seq<Pair>) {
    pairs == [] ||
    (var n := |pairs| - 1; Fresh(db, h, pairs[..n]) && (h, pairs[n].protocol) !in With(db, h, pairs[..n]))
  }

  lemma {:induction false} WithKeys(db: Database, h: Handle, pairs: seq<Pair>)
    ensures var w := With(db, h, pairs);
            && db.Keys <= w.Keys
            && (forall i :: 0 <= i < |pairs| ==> (h, pairs[i].protocol) in w)
            && (forall k :: k in w && k !in db ==> k.0 == h && exists i :: 0 <= i < |pairs| && pairs[i].protocol == k.1)
  {
    if pairs == [] {
    } else {
      var n := |pairs| - 1;
      WithKeys(db, h, pairs[..n]);
      assert forall i :: 0 <= i < n ==> pairs[..n][i] == pairs[i];
    }
  }

  /** Pairs that were all new are all there afterwards, and nothing else has changed. */
  lemma {:induction false} AllInstalled(db: Database, h: Handle, pairs: seq<Pair>)
    requires Fresh(db, h, pairs)
    ensures forall i :: 0 <= i < |pairs| ==> Has(With(db, h, pairs), h, pairs[i])
    ensures forall k :: k in db ==> k in With(db, h, pairs) && With(db, h, pairs)[k] == db[k]
    ensures |With(db, h, pairs)| == |db| + |pairs|
  {
    hide With;
    if pairs == [] {
      NoPairs(db, h, pairs);
    } else {
      var n := |pairs| - 1;
      var w := With(db, h, pairs[..n]);
      AllInstalled(db, h, pairs[..n]);
      assert pairs == pairs[..n] + [pairs[n]];
      Last(db, h, pairs[..n], pairs[n]);
      forall i | 0 <= i < n ensures Has(With(db, h, pairs), h, pairs[i]) {
        assert pairs[..n][i] == pairs[i];
      }
      OneKeyMore(w, (h, pairs[n].protocol), pairs[n].iface);
    }
  }

  lemma OneKeyMore(w: Database, k: (Handle, Guid), i: Interface)
    requires k !in w
    ensures |w[k := i]| == |w| + 1
  {
    assert w[k := i].Keys == w.Keys + {k};
  }

  /** Removing a pair from among pairs that were all new takes away exactly that pair. */
  lemma {:induction false} RemoveOne(db: Database, h: Handle, a: seq<Pair>, p: Pair, b: seq<Pair>)
    requires Fresh(db, h, a + [p] + b)
    ensures Has(With(db, h, a + [p] + b), h, p)
    ensures With(db, h, a + [p] + b) - {(h, p.protocol)} == With(db, h, a + b)
    ensures Fresh(db, h, a + b)
    decreases |b|
  {
    hide Fresh, With;
    if b == [] {
      assert a + [p] + b == a + [p] && a + b == a;
      Last(db, h, a, p);
    } else {
      var m := |b| - 1;
      assert a + [p] + b == (a + [p] + b[..m]) + [b[m]] && a + b == (a + b[..m]) + [b[m]];
      Last(db, h, a + [p] + b[..m], b[m]);
      RemoveOne(db, h, a, p, b[..m]);
      Last(db, h, a + b[..m], b[m]);
    }
  }

  lemma Last(db: Database, h: Handle, s: seq<Pair>, p: Pair)
    ensures With(db, h, s + [p]) == With(db, h, s)[(h, p.protocol) := p.iface]
    ensures Fresh(db, h, s + [p]) <==> Fresh(db, h, s) && (h, p.protocol) !in With(db, h, s)
  {
    assert (s + [p])[..|s|] == s;
  }

  /** Uninstalling, in the original order, pairs that were all new leaves exactly the stuck
      ones. */
  lemma {:induction false} Uninstalling(db: Database, h: Handle, pairs: seq<Pair>, refuses: nat -> bool, j: nat)
    requires Fresh(db, h, pairs) && j <= |pairs|
    ensures Fresh(db, h, Stuck(pairs[..j], refuses) + pairs[j..])
    ensures WithoutAll(With(db, h, pairs), h, pairs[..j], refuses)
            == With(db, h, Stuck(pairs[..j], refuses) + pairs[j..])
    decreases j
  {
    hide With, Fresh;
    if j == 0 {
      assert [] + pairs[0..] == pairs;
    } else {
      var i := j - 1;
      Uninstalling(db, h, pairs, refuses, i);
      assert pairs[..j][..i] == pairs[..i] && pairs[..j][i] == pairs[i];
      var a, p, b := Stuck(pairs[..i], refuses), pairs[i], pairs[j..];
      assert a + pairs[i..] == a + [p] + b;
      assert Stuck(pairs[..j], refuses) == a + if refuses(i) then [p] else [];
      RemoveOne(db, h, a, p, b);
      assert a + [] == a;
    }
  }

  lemma RolledBack(db: Database, h: Handle, pairs: seq<Pair>, refuses: nat -> bool)
    requires Fresh(db, h, pairs)
    ensures WithoutAll(With(db, h, pairs), h, pairs, refuses) == With(db, h, Stuck(pairs, refuses))
    ensures Fresh(db, h, Stuck(pairs, refuses))
  {
    Uninstalling(db, h, pairs, refuses, |pairs|);
    assert pairs[..|pairs|] == pairs;
    assert Stuck(pairs, refuses) + pairs[|pairs|..] == Stuck(pairs, refuses);
  }

  lemma {:induction false} StuckNone(pairs: seq<Pair>, refuses: nat -> bool)
    ensures Stuck(pairs, refuses) == [] <==> forall i :: 0 <= i < |pairs| ==> !refuses(i)
  {
    if pairs == [] {
    } else {
      StuckNone(pairs[..|pairs| - 1], refuses);
    }
  }

  /** The database is back to what it was exactly when no removal is refused. */
  lemma RestoredIff(db: Database, h: Handle, pairs: seq<Pair>, refuses: nat -> bool)
    requires Fresh(db, h, pairs)
    ensures WithoutAll(With(db, h, pairs), h, pairs, refuses) == db
            <==> forall i :: 0 <= i < |pairs| ==> !refuses(i)
  {
    hide WithoutAll, Stuck;
    RolledBack(db, h, pairs, refuses);
    StuckNone(pairs, refuses);
    var s := Stuck(pairs, refuses);
    if s != [] {
      var n := |s| - 1;
      WithKeys(db, h, s[..n]);
      assert (h, s[n].protocol) in With(db, h, s) && (h, s[n].protocol) !in db;
    }
  }

  // ----- LibInstallProtocolInterfaces -----

  /** The handle that pairs go to when the firmware would create `created`. */
  function Target(handle: Handle, created: Handle): Handle {
    if handle == NULL then created else handle
  }

  /** The `i`-th installation is the one that fails. */
  ghost predicate FailsAt(db: Database, handle: Handle, pairs: seq<Pair>, answers: nat -> Status,
                          created: Handle, i: nat)
    requires i < |pairs|
  {
    || answers(i) != Success
    || (handle != NULL && !Live(db, handle))
    || (Target(handle, created), pairs[i].protocol) in db
    || exists j :: 0 <= j < i && pairs[j].protocol == pairs[i].protocol
  }

  lemma NotYetThere(db: Database, h: Handle, pairs: seq<Pair>, i: nat)
    requires i < |pairs|
    ensures (h, pairs[i].protocol) in With(db, h, pairs[..i])
            <==> (h, pairs[i].protocol) in db || exists j :: 0 <= j < i && pairs[j].protocol == pairs[i].protocol
  {
    hide With;
    WithKeys(db, h, pairs[..i]);
    var w := With(db, h, pairs[..i]);
    if j :| 0 <= j < i && pairs[j].protocol == pairs[i].protocol {
      assert pairs[..i][j] == pairs[j];
    }
    if (h, pairs[i].protocol) in w && (h, pairs[i].protocol) !in db {
      var j :| 0 <= j < i && pairs[..i][j].protocol == pairs[i].protocol;
      assert pairs[..i][j] == pairs[j];
    }
  }

  lemma LiveWith(db: Database, h: Handle, pairs: seq<Pair>)
    ensures Live(With(db, h, pairs), h) <==> Live(db, h) || pairs != []
  {
    WithKeys(db, h, pairs);
    if Live(db, h) {
      var k :| k in db && k.0 == h;
      assert k in With(db, h, pairs);
    }
  }

  ghost predicate AllInstall(db: Database, handle: Handle, pairs: seq<Pair>, answers: nat -> Status,
                             created: Handle, n: nat)
    requires n <= |pairs|
  {
    forall i :: 0 <= i < n ==> !FailsAt(db, handle, pairs, answers, created, i)
  }

  /** After the first `i` pairs, the next call succeeds exactly when it is not a failing one. */
  lemma NextInstall(db: Database, handle: Handle, pairs: seq<Pair>, answers: nat -> Status, created: Handle, i: nat)
    requires i < |pairs| && created != NULL && !Live(db, created)
    requires AllInstall(db, handle, pairs, answers, created, i)
    ensures var h := Target(handle, created);
            Installable(With(db, h, pairs[..i]), if i == 0 then handle else h, pairs[i], answers(i))
            <==> !FailsAt(db, handle, pairs, answers, created, i)
  {
    hide With;
    var h := Target(handle, created);
    NotYetThere(db, h, pairs, i);
    LiveWith(db, h, pairs[..i]);
    if i == 0 {
      NoPairs(db, h, pairs[..0]);
      NotLive(db, created, pairs[0].protocol);
    } else {
      assert !FailsAt(db, handle, pairs, answers, created, 0);
    }
  }

  lemma NotLive(db: Database, h: Handle, g: Guid)
    requires !Live(db, h)
    ensures (h, g) !in db
  {
  }

  lemma NoPairs(db: Database, h: Handle, pairs: seq<Pair>)
    requires pairs == []
    ensures With(db, h, pairs) == db
  {
  }

  lemma OneMore(db: Database, h: Handle, pairs: seq<Pair>, i: nat)
    requires i < |pairs|
    ensures With(db, h, pairs[..i + 1]) == With(db, h, pairs[..i])[(h, pairs[i].protocol) := pairs[i].iface]
    ensures Fresh(db, h, pairs[..i]) && (h, pairs[i].protocol) !in With(db, h, pairs[..i]) ==>
              Fresh(db, h, pairs[..i + 1])
  {
    assert pairs[..i + 1][..i] == pairs[..i];
  }

  lemma OneFewer(db: Database, h: Handle, pairs: seq<Pair>, refuses: nat -> bool, i: nat)
    requires i < |pairs|
    ensures WithoutAll(db, h, pairs[..i + 1], refuses)
            == Without(WithoutAll(db, h, pairs[..i], refuses), h, pairs[i], refuses(i))
  {
    assert pairs[..i + 1][..i] == pairs[..i];
  }

  /** The error of the failing installation. */
  function ErrorAt(answers: nat -> Status, i: nat): Status {
    if answers(i) != Success then answers(i) else InvalidParameter
  }

  /** All or nothing. `answers` and `refuses` are what the firmware says by itself to the
      installation and the removal of each pair, `created` the handle it makes if it makes one;
      `done` is the number of pairs that went in. */
  method LibInstallProtocolInterfaces(bs: BootServices, handle: Handle, pairs: seq<Pair>, answers: nat -> Status,
                                      refuses: nat -> bool, created: Handle)
    returns (status: Status, h: Handle, ghost done: nat)
    requires bs.tpl <= TPL_NOTIFY && created != NULL && !Live(bs.db, created)
    modifies bs
    ensures bs.tpl == old(bs.tpl) && bs.quiet == old(bs.quiet)
    ensures done <= |pairs| && AllInstall(old(bs.db), handle, pairs, answers, created, done)
    ensures status == Success <==> done == |pairs|
    ensures status == Success ==>
              && h == (if pairs == [] then handle else Target(handle, created))
              && bs.db == With(old(bs.db), Target(handle, created), pairs)
              && Fresh(old(bs.db), Target(handle, created), pairs)
    ensures status != Success ==>
              && h == handle && status == (if answers(done) != Success then answers(done) else InvalidParameter)
              && FailsAt(old(bs.db), handle, pairs, answers, created, done)
              && bs.db == With(old(bs.db), Target(handle, created), Stuck(pairs[..done], refuses))
              && (bs.db == old(bs.db) <==> forall i :: 0 <= i < done ==> !refuses(i))
    ensures var target := if handle == 0 then created else handle;
            forall k :: k in bs.db <==>
              || k in old(bs.db)
              || exists i :: 0 <= i < done && (status == Success || refuses(i)) && k == (target, pairs[i].protocol)
    ensures forall k :: k in old(bs.db) ==> k in bs.db && bs.db[k] == old(bs.db)[k]
  {
    hide With, Fresh, Stuck, Live, FailsAt, AllInstall;
    ghost var db0 := bs.db;
    var oldTpl := bs.RaiseTPL(TPL_NOTIFY);
    var index;
    status, h, index := InstallAll(bs, handle, pairs, answers, created);
    done := index;
    if status != Success {
      ghost var target := Target(handle, created);
      Uninstall(bs, h, pairs, refuses, index);
      LeftOver(db0, target, pairs[..index], refuses);
      RolledBack(db0, target, pairs[..index], refuses);
      RestoredIff(db0, target, pairs[..index], refuses);
      h := handle;
    } else {
      assert pairs[..|pairs|] == pairs;
      AddedKeys(db0, Target(handle, created), pairs);
    }
    bs.RestoreTPL(oldTpl);
  }

  /** The keys that new pairs add. */
  lemma AddedKeys(db: Database, h: Handle, pairs: seq<Pair>)
    requires Fresh(db, h, pairs)
    ensures forall k :: k in With(db, h, pairs) <==>
              k in db || exists i :: 0 <= i < |pairs| && k == (h, pairs[i].protocol)
    ensures forall k :: k in db ==> k in With(db, h, pairs) && With(db, h, pairs)[k] == db[k]
  {
    hide With, Fresh;
    WithKeys(db, h, pairs);
    AllInstalled(db, h, pairs);
    forall k | k in With(db, h, pairs) && k !in db ensures exists i :: 0 <= i < |pairs| && k == (h, pairs[i].protocol) {
      var i :| 0 <= i < |pairs| && pairs[i].protocol == k.1;
      assert k == (h, pairs[i].protocol);
    }
  }

  /** The keys that are left over when pairs that were all new are removed again: those that are
      stuck. */
  lemma LeftOver(db: Database, h: Handle, pairs: seq<Pair>, refuses: nat -> bool)
    requires Fresh(db, h, pairs)
    ensures var w := With(db, h, Stuck(pairs, refuses));
            && (forall k :: k in w <==>
                  k in db || exists i :: 0 <= i < |pairs| && refuses(i) && k == (h, pairs[i].protocol))
            && (forall k :: k in db ==> k in w && w[k] == db[k])
  {
    hide With, Fresh, Stuck;
    RolledBack(db, h, pairs, refuses);
    var s := Stuck(pairs, refuses);
    AddedKeys(db, h, s);
    StuckPairs(pairs, refuses);
    forall k | k in With(db, h, s) && k !in db
      ensures exists i :: 0 <= i < |pairs| && refuses(i) && k == (h, pairs[i].protocol)
    {
      var j :| 0 <= j < |s| && k == (h, s[j].protocol);
      assert s[j] in s;
    }
    forall i | 0 <= i < |pairs| && refuses(i) ensures (h, pairs[i].protocol) in With(db, h, s) {
      assert pairs[i] in s;
      var j :| 0 <= j < |s| && s[j] == pairs[i];
    }
  }

  lemma {:induction false} StuckPairs(pairs: seq<Pair>, refuses: nat -> bool)
    ensures forall p :: p in Stuck(pairs, refuses) <==> exists i :: 0 <= i < |pairs| && refuses(i) && pairs[i] == p
  {
    if pairs == [] {
    } else {
      var n := |pairs| - 1;
      StuckPairs(pairs[..n], refuses);
      assert forall i :: 0 <= i < n ==> pairs[..n][i] == pairs[i];
    }
  }

  /** An installation fails for an error of the firmware's own, on a handle without any protocol, or
      for a protocol that is there already or comes earlier in the list. */
  lemma FailureMeans(db: Database, handle: Handle, pairs: seq<Pair>, answers: nat -> Status, created: Handle, i: nat)
    requires i < |pairs|
    ensures FailsAt(db, handle, pairs, answers, created, i) <==>
            || answers(i) != Success
            || (handle != 0 && forall k :: k in db ==> k.0 != handle)
            || (if handle == 0 then created else handle, pairs[i].protocol) in db
            || exists j :: 0 <= j < i && pairs[j].protocol == pairs[i].protocol
  {
  }

  /** The installing loop. */
  method InstallAll(bs: BootServices, handle: Handle, pairs: seq<Pair>, answers: nat -> Status, created: Handle)
    returns (status: Status, h: Handle, index: nat)
    requires bs.tpl <= TPL_NOTIFY && created != NULL && !Live(bs.db, created)
    modifies bs`db, bs`quiet
    ensures bs.tpl == TPL_NOTIFY ==> bs.quiet == old(bs.quiet)
    ensures index <= |pairs| && AllInstall(old(bs.db), handle, pairs, answers, created, index)
    ensures status == Success <==> index == |pairs|
    ensures status != Success ==>
              status == ErrorAt(answers, index) && FailsAt(old(bs.db), handle, pairs, answers, created, index)
    ensures h == if index == 0 then handle else Target(handle, created)
    ensures bs.db == With(old(bs.db), Target(handle, created), pairs[..index])
    ensures Fresh(old(bs.db), Target(handle, created), pairs[..index])
  {
    hide With, Fresh, Live, FailsAt;
    index, status, h := 0, Success, handle;
    ghost var db0, target := bs.db, Target(handle, created);
    NoPairs(db0, target, pairs[..0]);
    NoneFresh(db0, target, pairs[..0]);
    while index < |pairs|
      invariant index <= |pairs| && status == Success && (bs.tpl == TPL_NOTIFY ==> bs.quiet == old(bs.quiet))
      invariant AllInstall(db0, handle, pairs, answers, created, index)
      invariant h == if index == 0 then handle else target
      invariant bs.db == With(db0, target, pairs[..index]) && Fresh(db0, target, pairs[..index])
    {
      NextInstall(db0, handle, pairs, answers, created, index);
      status, h := InstallOne(bs, h, pairs[index], answers, index, created);
      if status != Success {
        return;
      }
      OneMore(db0, target, pairs, index);
      NewKey(db0, handle, pairs, answers, created, index);
      index := index + 1;
    }
  }

  method InstallOne(bs: BootServices, handle: Handle, p: Pair, answers: nat -> Status, i: nat, created: Handle)
    returns (status: Status, h: Handle)
    requires bs.tpl <= TPL_NOTIFY
    modifies bs`db, bs`quiet
    ensures bs.tpl == TPL_NOTIFY ==> bs.quiet == old(bs.quiet)
    ensures status == Success <==> Installable(old(bs.db), handle, p, answers(i))
    ensures status != Success ==> bs.db == old(bs.db) && h == handle && status == ErrorAt(answers, i)
    ensures status == Success ==> h == Target(handle, created) && bs.db == old(bs.db)[(h, p.protocol) := p.iface]
  {
    status, h := bs.InstallProtocolInterface(handle, p, answers(i), created);
  }

  lemma NewKey(db: Database, handle: Handle, pairs: seq<Pair>, answers: nat -> Status, created: Handle, i: nat)
    requires i < |pairs| && !FailsAt(db, handle, pairs, answers, created, i)
    ensures var h := Target(handle, created); (h, pairs[i].protocol) !in With(db, h, pairs[..i])
  {
    hide With;
    NotYetThere(db, Target(handle, created), pairs, i);
  }

  lemma NoneFresh(db: Database, h: Handle, pairs: seq<Pair>)
    requires pairs == []
    ensures Fresh(db, h, pairs)
  {
  }

  /** The loop that uninstalls the first `index` pairs, in their order. */
  method Uninstall(bs: BootServices, handle: Handle, pairs: seq<Pair>, refuses: nat -> bool, index: nat)
    requires bs.tpl <= TPL_NOTIFY && index <= |pairs|
    modifies bs`db, bs`quiet
    ensures bs.tpl == TPL_NOTIFY ==> bs.quiet == old(bs.quiet)
    ensures bs.db == WithoutAll(old(bs.db), handle, pairs[..index], refuses)
  {
    hide Without;
    assert pairs[..0] == [];
    for i := 0 to index
      invariant bs.db == WithoutAll(old(bs.db), handle, pairs[..i], refuses)
      invariant bs.tpl == TPL_NOTIFY ==> bs.quiet == old(bs.quiet)
    {
      OneFewer(old(bs.db), handle, pairs, refuses, i);
      var _ := bs.UninstallProtocolInterface(handle, pairs[i], refuses(i));
    }
  }

  method LibUninstallProtocolInterfaces(bs: BootServices, handle: Handle, pairs: seq<Pair>, refuses: nat -> bool)
    requires bs.tpl <= TPL_NOTIFY
    modifies bs`db, bs`quiet
    ensures bs.tpl == TPL_NOTIFY ==> bs.quiet == old(bs.quiet)
    ensures bs.db == WithoutAll(old(bs.db), handle, pairs, refuses)
    ensures forall k :: k in bs.db <==>
              k in old(bs.db) && !(k.0 == handle && Removes(pairs, refuses, Pair(k.1, old(bs.db)[k])))
    ensures forall k :: k in bs.db ==> bs.db[k] == old(bs.db)[k]
  {
    hide WithoutAll, Removes;
    Uninstall(bs, handle, pairs, refuses, |pairs|);
    assert pairs[..|pairs|] == pairs;
    Survivors(old(bs.db), handle, pairs, refuses);
  }

  /** Installing and then uninstalling the same pairs brings the database back exactly when the
      firmware refuses no removal. */
  method InstallUninstall(bs: BootServices, handle: Handle, pairs: seq<Pair>, answers: nat -> Status,
                          refuses: nat -> bool, created: Handle)
    requires bs.tpl <= TPL_NOTIFY && created != NULL && !Live(bs.db, created)
    requires AllInstall(bs.db, handle, pairs, answers, created, |pairs|)
    modifies bs
    ensures bs.db == old(bs.db) <==> forall i :: 0 <= i < |pairs| ==> !refuses(i)
  {
    hide With, Fresh, Stuck, Live, FailsAt;
    ghost var db0 := bs.db;
    var status, h, done := LibInstallProtocolInterfaces(bs, handle, pairs, answers, refuses, created);
    LibUninstallProtocolInterfaces(bs, h, pairs, refuses);
    RestoredIff(db0, Target(handle, created), pairs, refuses);
  }
}
