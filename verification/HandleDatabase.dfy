/** Installing several protocol interfaces on a handle as one operation, over the firmware's handle database. */
module HandleDatabase {

  type Handle = nat
  type Guid = nat
  type Interface = nat
  type Protocols = map<Guid, Interface>
  type Database = map<Handle, Protocols>

  const NULL_HANDLE: Handle := 0
  const TPL_NOTIFY := 16

  function ProtocolsOn(db: Database, h: Handle): Protocols {
    if h in db then db[h] else map[]
  }

  /** The database with exactly these protocols on h; a handle without protocols does not exist. */
  function WithProtocols(db: Database, h: Handle, p: Protocols): Database {
    if p == map[] then db - {h} else db[h := p]
  }

  // ---- The firmware ----

  class Firmware {
    var db: Database
    var next: Handle
    var tpl: nat

    ghost predicate Valid()
      reads this
    {
      next > NULL_HANDLE && forall h | h in db :: NULL_HANDLE < h < next && db[h] != map[]
    }

    constructor ()
      ensures Valid() && db == map[]
    {
      db, next, tpl := map[], 1, 4;
    }

    method RaiseTPL(level: nat) returns (oldTpl: nat)
      modifies this`tpl
      ensures oldTpl == old(tpl) && tpl == level
    {
      oldTpl := tpl;
      tpl := level;
    }

    method RestoreTPL(level: nat)
      modifies this`tpl
      ensures tpl == level
    {
      tpl := level;
    }

    /** A null handle asks for a new one. refused is the firmware failing for reasons of its own. */
    method InstallProtocolInterface(handle: Handle, protocol: Guid, iface: Interface, refused: bool)
      returns (ok: bool, installed: Handle)
      requires Valid()
      modifies this`db, this`next
      ensures Valid()
      ensures ok <==>
        !refused && (handle == NULL_HANDLE || (handle in old(db) && protocol !in old(db)[handle]))
      ensures !ok ==> db == old(db) && installed == handle
      ensures ok && handle == NULL_HANDLE ==> installed !in old(db)
      ensures ok && handle != NULL_HANDLE ==> installed == handle
      ensures ok ==>
        installed != NULL_HANDLE && db == old(db)[installed := ProtocolsOn(old(db), installed)[protocol := iface]]
    {
      installed := handle;
      if refused || (handle != NULL_HANDLE && (handle !in db || protocol in db[handle])) {
        return false, handle;
      }
      if handle == NULL_HANDLE {
        installed := next;
        next := next + 1;
      }
      db := db[installed := ProtocolsOn(db, installed)[protocol := iface]];
      assert protocol in db[installed];
      return true, installed;
    }

    /** While notifications are held off nobody else can have opened an interface that was just installed. */
    method UninstallProtocolInterface(handle: Handle, protocol: Guid, iface: Interface) returns (ok: bool)
      requires Valid()
      modifies this`db
      ensures Valid()
      ensures ok <==> handle in old(db) && protocol in old(db)[handle] && old(db)[handle][protocol] == iface
      ensures db == if ok then WithProtocols(old(db), handle, old(db)[handle] - {protocol}) else old(db)
    {
      ok := handle in db && protocol in db[handle] && db[handle][protocol] == iface;
      if ok {
        db := WithProtocols(db, handle, db[handle] - {protocol});
      }
    }

    method ReinstallProtocolInterface(handle: Handle, protocol: Guid, oldInterface: Interface, newInterface: Interface,
                                      refused: bool)
      returns (ok: bool)
      requires Valid()
      modifies this`db
      ensures Valid()
      ensures ok <==>
        !refused && handle in old(db) && Replaceable(old(db)[handle], Change(protocol, oldInterface, newInterface))
      ensures db == if ok
        then old(db)[handle := Replace(old(db)[handle], Change(protocol, oldInterface, newInterface))]
        else old(db)
    {
      ok := !refused && handle in db && protocol in db[handle] && db[handle][protocol] == oldInterface;
      if ok {
        db := db[handle := Replace(db[handle], Change(protocol, oldInterface, newInterface))];
      }
    }
  }

  // ---- Install all or nothing ----

  datatype Pair = Pair(protocol: Guid, iface: Interface)

  function MapOf(pairs: seq<Pair>): Protocols {
    if pairs == [] then map[] else MapOf(pairs[1..])[pairs[0].protocol := pairs[0].iface]
  }

  /** No protocol twice, and none that the handle has already. */
  predicate Fresh(pairs: seq<Pair>, base: Protocols) {
    && (forall i | 0 <= i < |pairs| :: pairs[i].protocol !in base)
    && (forall i, j | 0 <= i < j < |pairs| :: pairs[i].protocol != pairs[j].protocol)
  }

  lemma {:induction false} MapOfMember(pairs: seq<Pair>, g: Guid)
    ensures g in MapOf(pairs) <==> exists i | 0 <= i < |pairs| :: pairs[i].protocol == g
  {
    if pairs != [] {
      MapOfMember(pairs[1..], g);
      if i :| 0 <= i < |pairs| && pairs[i].protocol == g {
        assert i == 0 || pairs[1..][i - 1].protocol == g;
      }
      if i :| 0 <= i < |pairs[1..]| && pairs[1..][i].protocol == g {
        assert pairs[i + 1].protocol == g;
      }
    }
  }

  lemma {:induction false} MapOfSnoc(pairs: seq<Pair>, p: Pair)
    requires forall i | 0 <= i < |pairs| :: pairs[i].protocol != p.protocol
    ensures MapOf(pairs + [p]) == MapOf(pairs)[p.protocol := p.iface]
  {
    if pairs == [] {
      assert [p][1..] == [] && pairs + [p] == [p];
    } else {
      assert (pairs + [p])[1..] == pairs[1..] + [p];
      MapOfSnoc(pairs[1..], p);
    }
  }

  /** The state after the pairs were installed on h in db0. */
  ghost predicate Installed(db: Database, db0: Database, h: Handle, pairs: seq<Pair>) {
    db == if pairs == [] then db0 else db0[h := ProtocolsOn(db0, h) + MapOf(pairs)]
  }

  lemma InstallOne(db: Database, db0: Database, h: Handle, pairs: seq<Pair>, p: Pair)
    requires Installed(db, db0, h, pairs) && Fresh(pairs, ProtocolsOn(db0, h))
    requires p.protocol !in ProtocolsOn(db, h)
    ensures Fresh(pairs + [p], ProtocolsOn(db0, h))
    ensures Installed(db[h := ProtocolsOn(db, h)[p.protocol := p.iface]], db0, h, pairs + [p])
  {
    var base := ProtocolsOn(db0, h);
    assert ProtocolsOn(db, h) == base + MapOf(pairs);
    forall i | 0 <= i < |pairs|
      ensures pairs[i].protocol != p.protocol
    {
      MapOfMember(pairs, pairs[i].protocol);
    }
    MapOfSnoc(pairs, p);
    assert (base + MapOf(pairs))[p.protocol := p.iface] == base + MapOf(pairs + [p]);
  }

  lemma RemoveFirst(db: Database, db0: Database, h: Handle, pairs: seq<Pair>)
    requires pairs != [] && Installed(db, db0, h, pairs) && Fresh(pairs, ProtocolsOn(db0, h))
    requires h in db0 ==> db0[h] != map[]
    ensures h in db && pairs[0].protocol in db[h] && db[h][pairs[0].protocol] == pairs[0].iface
    ensures Fresh(pairs[1..], ProtocolsOn(db0, h))
    ensures Installed(WithProtocols(db, h, db[h] - {pairs[0].protocol}), db0, h, pairs[1..])
  {
    var base, p := ProtocolsOn(db0, h), pairs[0];
    MapOfMember(pairs[1..], p.protocol);
    assert p.protocol !in MapOf(pairs[1..]) && p.protocol !in base;
    var left := db[h] - {p.protocol};
    assert left == base + MapOf(pairs[1..]);
    if pairs[1..] == [] {
      assert left == base;
      assert WithProtocols(db, h, left) == db0;
    } else {
      MapOfMember(pairs[1..], pairs[1].protocol);
      assert pairs[1..][0] == pairs[1];
      assert left != map[];
      assert db[h := left] == db0[h := left];
    }
  }

  lemma MapOfAll(pairs: seq<Pair>, base: Protocols)
    requires Fresh(pairs, base)
    ensures forall i | 0 <= i < |pairs| ::
      var m := base + MapOf(pairs); pairs[i].protocol in m && m[pairs[i].protocol] == pairs[i].iface
    ensures forall g | g in base :: (base + MapOf(pairs))[g] == base[g]
    decreases |pairs|
  {
    forall g | g in base
      ensures g !in MapOf(pairs)
    {
      MapOfMember(pairs, g);
    }
    forall i | 0 <= i < |pairs|
      ensures pairs[i].protocol in MapOf(pairs) && MapOf(pairs)[pairs[i].protocol] == pairs[i].iface
    {
      MapOfValue(pairs, i);
    }
  }

  lemma {:induction false} MapOfValue(pairs: seq<Pair>, i: nat)
    requires i < |pairs| && Fresh(pairs, map[])
    ensures pairs[i].protocol in MapOf(pairs) && MapOf(pairs)[pairs[i].protocol] == pairs[i].iface
  {
    if i > 0 {
      assert pairs[1..][i - 1] == pairs[i];
      MapOfValue(pairs[1..], i - 1);
    }
  }

  /** Where a call that was given handle0 stands once the pairs are installed; its handle is now h. */
  ghost predicate Progress(db: Database, db0: Database, handle0: Handle, h: Handle, pairs: seq<Pair>) {
    && Installed(db, db0, h, pairs)
    && Fresh(pairs, ProtocolsOn(db0, h))
    && (handle0 != NULL_HANDLE || pairs == [] ==> h == handle0)
    && (handle0 == NULL_HANDLE && pairs != [] ==> h != NULL_HANDLE && h !in db0)
  }

  lemma NoProgressYet(db: Database, h: Handle)
    ensures Progress(db, db, h, h, [])
  {
  }

  method InstallNext(fw: Firmware, handle: Handle, p: Pair, refused: bool,
                     ghost db0: Database, ghost handle0: Handle, ghost pairs: seq<Pair>)
    returns (ok: bool, result: Handle)
    requires fw.Valid() && Progress(fw.db, db0, handle0, handle, pairs)
    modifies fw`db, fw`next
    ensures fw.Valid()
    ensures ok ==> Progress(fw.db, db0, handle0, result, pairs + [p])
    ensures !ok ==> fw.db == old(fw.db) && result == handle
  {
    hide Installed, Fresh;
    ghost var before := fw.db;
    ok, result := fw.InstallProtocolInterface(handle, p.protocol, p.iface, refused);
    if ok {
      if handle == NULL_HANDLE {
        NewHandle(before, db0, handle0, result, pairs);
      }
      InstallOne(before, db0, result, pairs, p);
    }
  }

  /** Only the first installation can be asked to make a handle. */
  lemma NewHandle(db: Database, db0: Database, handle0: Handle, h: Handle, pairs: seq<Pair>)
    requires Progress(db, db0, handle0, NULL_HANDLE, pairs) && h !in db
    ensures handle0 == NULL_HANDLE ==> pairs == [] && db == db0
    ensures Installed(db, db0, h, pairs) && Fresh(pairs, ProtocolsOn(db0, h))
  {
    if handle0 == NULL_HANDLE {
      assert pairs == [];
    }
  }

  /** refusals says at which calls the firmware fails for reasons of its own. */
  method LibInstallProtocolInterfaces(fw: Firmware, handle: Handle, pairs: seq<Pair>, refusals: nat -> bool)
    returns (ok: bool, result: Handle)
    requires fw.Valid()
    modifies fw
    ensures fw.Valid() && fw.tpl == old(fw.tpl)
    ensures !ok ==> fw.db == old(fw.db) && result == handle
    ensures ok ==> Progress(fw.db, old(fw.db), handle, result, pairs)
  {
    hide Progress;
    var oldTpl := fw.RaiseTPL(TPL_NOTIFY);
    var oldHandle := handle;
    ghost var db0 := fw.db;
    result := handle;
    ok := true;
    var index := 0;
    assert pairs[..0] == [];
    NoProgressYet(db0, handle);
    while ok && index < |pairs|
      invariant 0 <= index <= |pairs| && fw.Valid() && fw.tpl == TPL_NOTIFY
      invariant Progress(fw.db, db0, handle, result, pairs[..index])
      decreases |pairs| - index, ok
    {
      ok, result := InstallNext(fw, result, pairs[index], refusals(index), db0, handle, pairs[..index]);
      if !ok {
        break;
      }
      assert pairs[..index + 1] == pairs[..index] + [pairs[index]];
      index := index + 1;
    }
    if !ok {
      Rollback(fw, handle, result, pairs[..index], db0);
      result := oldHandle;
    } else {
      assert pairs[..index] == pairs;
    }
    fw.RestoreTPL(oldTpl);
  }

  /** Takes the installed pairs back, first one first. */
  method Rollback(fw: Firmware, ghost handle0: Handle, handle: Handle, pairs: seq<Pair>, ghost db0: Database)
    requires fw.Valid() && Progress(fw.db, db0, handle0, handle, pairs)
    requires handle in db0 ==> db0[handle] != map[]
    modifies fw`db
    ensures fw.Valid() && fw.db == db0
  {
    var index: nat, at: nat := |pairs|, 0;
    assert pairs[0..] == pairs;
    while index != 0
      invariant at + index == |pairs| && fw.Valid()
      invariant Installed(fw.db, db0, handle, pairs[at..]) && Fresh(pairs[at..], ProtocolsOn(db0, handle))
    {
      RemoveFirst(fw.db, db0, handle, pairs[at..]);
      assert pairs[at..][1..] == pairs[at + 1..] && pairs[at..][0] == pairs[at];
      var removed := fw.UninstallProtocolInterface(handle, pairs[at].protocol, pairs[at].iface);
      at := at + 1;
      index := index - 1;
    }
  }

  // ---- Reinstall ----

  datatype Change = Change(protocol: Guid, oldInterface: Interface, newInterface: Interface)

  predicate Replaceable(p: Protocols, c: Change) {
    c.protocol in p && p[c.protocol] == c.oldInterface
  }

  function Undo(c: Change): Change {
    Change(c.protocol, c.newInterface, c.oldInterface)
  }

  /** One reinstallation; it fails, changing nothing, if the old interface is not the one installed. */
  function Replace(p: Protocols, c: Change): Protocols {
    if Replaceable(p, c) then p[c.protocol := c.newInterface] else p
  }

  function ReplaceAll(p: Protocols, cs: seq<Change>): (r: Protocols)
    ensures r.Keys == p.Keys
    decreases |cs|
  {
    if cs == [] then p else Replace(ReplaceAll(p, cs[..|cs| - 1]), cs[|cs| - 1])
  }

  /** Every change finds its old interface in place. */
  predicate Applies(p: Protocols, cs: seq<Change>)
    decreases |cs|
  {
    cs != [] ==>
      Applies(p, cs[..|cs| - 1]) && Replaceable(ReplaceAll(p, cs[..|cs| - 1]), cs[|cs| - 1])
  }

  function UndoAll(p: Protocols, cs: seq<Change>): (r: Protocols)
    ensures r.Keys == p.Keys
    decreases |cs|
  {
    if cs == [] then p else Replace(UndoAll(p, cs[..|cs| - 1]), Undo(cs[|cs| - 1]))
  }

  function Targets(cs: seq<Change>): (gs: seq<Guid>)
    ensures |gs| == |cs| && forall i | 0 <= i < |cs| :: gs[i] == cs[i].protocol
  {
    seq(|cs|, i requires 0 <= i < |cs| => cs[i].protocol)
  }

  predicate Distinct(gs: seq<Guid>) {
    forall i, j | 0 <= i < j < |gs| :: gs[i] != gs[j]
  }

  lemma ReplaceSnoc(p: Protocols, cs: seq<Change>, c: Change)
    ensures ReplaceAll(p, cs + [c]) == Replace(ReplaceAll(p, cs), c)
    ensures UndoAll(p, cs + [c]) == Replace(UndoAll(p, cs), Undo(c))
    ensures Applies(p, cs + [c]) <==> Applies(p, cs) && Replaceable(ReplaceAll(p, cs), c)
  {
    assert (cs + [c])[..|cs|] == cs;
  }

  ghost predicate OnHandle(db: Database, db0: Database, h: Handle, p: Protocols) {
    db == if h in db0 then db0[h := p] else db0
  }

  /** What a call leaves behind: all changes, or, when change number k fails, k changes made and undone in order. */
  ghost predicate ReinstallResult(ok: bool, db: Database, db0: Database, h: Handle, cs: seq<Change>) {
    var p := ProtocolsOn(db0, h);
    if ok then Applies(p, cs) && (cs != [] ==> h in db0) && OnHandle(db, db0, h, ReplaceAll(p, cs))
    else exists k | 0 <= k < |cs| ::
      Applies(p, cs[..k]) && OnHandle(db, db0, h, UndoAll(ReplaceAll(p, cs[..k]), cs[..k]))
  }

  method LibReinstallProtocolInterfaces(fw: Firmware, handle: Handle, changes: seq<Change>, refusals: nat -> bool)
    returns (ok: bool)
    requires fw.Valid()
    modifies fw
    ensures fw.Valid() && fw.tpl == old(fw.tpl)
    ensures ReinstallResult(ok, fw.db, old(fw.db), handle, changes)
  {
    hide Replace, Replaceable, ReplaceAll, UndoAll, Applies;
    var oldTpl := fw.RaiseTPL(TPL_NOTIFY);
    ghost var db0 := fw.db;
    ghost var p := ProtocolsOn(db0, handle);
    ok := true;
    var index := 0;
    assert changes[..0] == [];
    NoChange(p);
    while ok && index < |changes|
      invariant 0 <= index <= |changes| && fw.Valid() && fw.tpl == TPL_NOTIFY
      invariant Applies(p, changes[..index]) && (index > 0 ==> handle in db0)
      invariant OnHandle(fw.db, db0, handle, ReplaceAll(p, changes[..index]))
      invariant !ok ==> index < |changes|
      decreases |changes| - index, ok
    {
      var c := changes[index];
      ok := fw.ReinstallProtocolInterface(handle, c.protocol, c.oldInterface, c.newInterface, refusals(index));
      if !ok {
        break;
      }
      ReplaceSnoc(p, changes[..index], c);
      ReplaceApplied(ReplaceAll(p, changes[..index]), c);
      assert changes[..index + 1] == changes[..index] + [c];
      index := index + 1;
    }
    if !ok {
      UndoChanges(fw, handle, changes[..index], db0, ReplaceAll(p, changes[..index]));
    } else {
      assert changes[..index] == changes;
    }
    fw.RestoreTPL(oldTpl);
  }

  lemma NoChange(p: Protocols)
    ensures Applies(p, []) && ReplaceAll(p, []) == p && UndoAll(p, []) == p
  {
  }

  lemma ReplaceApplied(p: Protocols, c: Change)
    ensures Replaceable(p, c) ==> Replace(p, c) == p[c.protocol := c.newInterface]
    ensures !Replaceable(p, c) ==> Replace(p, c) == p
  {
  }

  /** Reinstalls the old interfaces, first change first; a firmware that made a change is taken to unmake it. */
  method UndoChanges(fw: Firmware, handle: Handle, changes: seq<Change>, ghost db0: Database, ghost p: Protocols)
    requires fw.Valid() && OnHandle(fw.db, db0, handle, p)
    requires handle in db0 || changes == []
    modifies fw`db
    ensures fw.Valid() && OnHandle(fw.db, db0, handle, UndoAll(p, changes))
  {
    hide Replace, Replaceable, ReplaceAll, UndoAll, Applies;
    var index: nat, at: nat := |changes|, 0;
    assert changes[..0] == [];
    NoChange(p);
    while index != 0
      invariant at + index == |changes| && fw.Valid()
      invariant OnHandle(fw.db, db0, handle, UndoAll(p, changes[..at]))
    {
      var c := changes[at];
      ReplaceSnoc(p, changes[..at], c);
      ReplaceApplied(UndoAll(p, changes[..at]), Undo(c));
      assert changes[..at + 1] == changes[..at] + [c];
      var undone := fw.ReinstallProtocolInterface(handle, c.protocol, c.newInterface, c.oldInterface, false);
      at := at + 1;
      index := index - 1;
    }
    assert changes[..at] == changes;
  }

  // ---- When undoing restores ----

  /** After the first j of k distinct changes were undone: old interfaces up to j, new ones from there on. */
  ghost predicate HalfUndone(q: Protocols, p: Protocols, cs: seq<Change>, j: nat)
    requires j <= |cs|
  {
    && q.Keys == p.Keys
    && (forall i | 0 <= i < |cs| :: cs[i].protocol in p)
    && (forall i | 0 <= i < j :: q[cs[i].protocol] == p[cs[i].protocol] == cs[i].oldInterface)
    && (forall i | j <= i < |cs| :: q[cs[i].protocol] == cs[i].newInterface && p[cs[i].protocol] == cs[i].oldInterface)
    && (forall g | g in p && g !in Targets(cs) :: q[g] == p[g])
  }

  lemma {:induction false} DistinctApplied(p: Protocols, cs: seq<Change>)
    requires Distinct(Targets(cs)) && Applies(p, cs)
    ensures HalfUndone(ReplaceAll(p, cs), p, cs, 0)
    decreases |cs|
  {
    if cs != [] {
      var init, c := cs[..|cs| - 1], cs[|cs| - 1];
      assert cs == init + [c];
      ReplaceSnoc(p, init, c);
      DistinctPrefix(cs, |cs| - 1);
      hide ReplaceAll, Applies, Distinct;
      DistinctApplied(p, init);
      DistinctLast(init, c);
      OneMoreApplied(p, ReplaceAll(p, init), init, c);
    }
  }

  lemma DistinctLast(init: seq<Change>, c: Change)
    requires Distinct(Targets(init + [c]))
    ensures c.protocol !in Targets(init)
  {
    var gs := Targets(init + [c]);
    assert gs[|init|] == c.protocol;
    assert forall i | 0 <= i < |init| :: Targets(init)[i] == gs[i];
  }

  lemma OneMoreApplied(p: Protocols, q: Protocols, init: seq<Change>, c: Change)
    requires HalfUndone(q, p, init, 0) && Replaceable(q, c) && c.protocol !in Targets(init)
    ensures HalfUndone(Replace(q, c), p, init + [c], 0)
  {
    var cs := init + [c];
    assert forall i | 0 <= i < |init| :: cs[i] == init[i] && init[i].protocol == Targets(init)[i];
    forall g | g in p && g !in Targets(cs)
      ensures g !in Targets(init) && g != c.protocol
    {
      assert Targets(cs)[|init|] == c.protocol;
      assert forall i | 0 <= i < |init| :: Targets(cs)[i] == Targets(init)[i];
    }
  }

  lemma {:induction false} DistinctUndone(q: Protocols, p: Protocols, cs: seq<Change>, j: nat)
    requires Distinct(Targets(cs)) && HalfUndone(q, p, cs, 0) && j <= |cs|
    ensures HalfUndone(UndoAll(q, cs[..j]), p, cs, j)
    decreases j
  {
    if j > 0 {
      var c := cs[j - 1];
      DistinctUndone(q, p, cs, j - 1);
      assert cs[..j][..j - 1] == cs[..j - 1];
      var r := UndoAll(q, cs[..j - 1]);
      assert UndoAll(q, cs[..j]) == Replace(r, Undo(c));
      assert Targets(cs)[j - 1] == c.protocol;
      forall i | 0 <= i < |cs| && i != j - 1
        ensures cs[i].protocol != c.protocol
      {
        assert Targets(cs)[i] == cs[i].protocol;
      }
    }
  }

  /** With distinct protocols every interface comes back. */
  lemma UndoRestores(p: Protocols, cs: seq<Change>)
    requires Distinct(Targets(cs)) && Applies(p, cs)
    ensures UndoAll(ReplaceAll(p, cs), cs) == p
  {
    DistinctApplied(p, cs);
    hide ReplaceAll, Applies, Distinct, UndoAll, HalfUndone;
    DistinctUndone(ReplaceAll(p, cs), p, cs, |cs|);
    assert cs[..|cs|] == cs;
    AllUndone(UndoAll(ReplaceAll(p, cs), cs), p, cs);
  }

  lemma AllUndone(r: Protocols, p: Protocols, cs: seq<Change>)
    requires HalfUndone(r, p, cs, |cs|)
    ensures r == p
  {
    forall g | g in p
      ensures r[g] == p[g]
    {
      if g in Targets(cs) {
        var i :| 0 <= i < |cs| && Targets(cs)[i] == g;
        assert cs[i].protocol == g;
      }
    }
  }

  // The n-th change of a protocol moves it from n to n + 1: the witness that a repeated protocol is not restored.

  function Count(gs: seq<Guid>, g: Guid): nat
    decreases |gs|
  {
    if gs == [] then 0 else Count(gs[..|gs| - 1], g) + if gs[|gs| - 1] == g then 1 else 0
  }

  function Counters(gs: seq<Guid>): (cs: seq<Change>)
    ensures |cs| == |gs| && forall i | 0 <= i < |gs| :: cs[i].protocol == gs[i]
    decreases |gs|
  {
    if gs == [] then []
    else
      var init, g := gs[..|gs| - 1], gs[|gs| - 1];
      Counters(init) + [Change(g, Count(init, g), Count(init, g) + 1)]
  }

  function Zeros(gs: seq<Guid>): Protocols {
    map g | g in gs :: 0
  }

  lemma {:induction false} CountersApply(p: Protocols, gs: seq<Guid>)
    requires forall g | g in gs :: g in p
    requires forall g | g in p :: p[g] == 0
    ensures Applies(p, Counters(gs))
    ensures forall g | g in p :: ReplaceAll(p, Counters(gs))[g] == Count(gs, g)
    decreases |gs|
  {
    if gs != [] {
      var init, g := gs[..|gs| - 1], gs[|gs| - 1];
      var c := Change(g, Count(init, g), Count(init, g) + 1);
      assert g in gs && forall x | x in init :: x in gs;
      assert Counters(gs) == Counters(init) + [c];
      CountersApply(p, init);
      ReplaceSnoc(p, Counters(init), c);
      hide ReplaceAll, Applies, Counters;
    }
  }

  lemma {:induction false} CountersUndone(p: Protocols, gs: seq<Guid>, total: Protocols)
    requires forall g | g in p :: g in total
    requires forall g | g in gs :: g in p
    requires forall g | g in p :: p[g] == total[g]
    requires forall g | g in p :: Count(gs, g) <= total[g]
    ensures forall g | g in p :: UndoAll(p, Counters(gs))[g] == Left(Count(gs, g), total[g])
    decreases |gs|
  {
    if gs != [] {
      var init, g := gs[..|gs| - 1], gs[|gs| - 1];
      var c := Change(g, Count(init, g), Count(init, g) + 1);
      assert g in gs && forall x | x in init :: x in gs;
      forall x | x in p
        ensures Count(gs, x) == Count(init, x) + if x == g then 1 else 0
      {
      }
      assert Counters(gs) == Counters(init) + [c];
      ReplaceSnoc(p, Counters(init), c);
      hide Count, Counters, UndoAll;
      CountersUndone(p, init, total);
      var before := UndoAll(p, Counters(init));
      OneMoreUndone(before, c);
    }
  }

  /** What is left of a counter that stood at total after its first n changes were undone. */
  function Left(n: nat, total: nat): nat {
    if n == total && total > 0 then total - 1 else total
  }

  lemma OneMoreUndone(q: Protocols, c: Change)
    ensures forall g | g in q ::
      Replace(q, Undo(c))[g] == if g == c.protocol && q[g] == c.newInterface then c.oldInterface else q[g]
  {
  }

  lemma {:induction false} CountPositive(gs: seq<Guid>, g: Guid)
    ensures Count(gs, g) > 0 <==> g in gs
    decreases |gs|
  {
    if gs != [] {
      CountPositive(gs[..|gs| - 1], g);
      assert gs == gs[..|gs| - 1] + [gs[|gs| - 1]];
    }
  }

  lemma {:induction false} CountTwice(gs: seq<Guid>, i: nat, j: nat)
    requires i < j < |gs| && gs[i] == gs[j]
    ensures Count(gs, gs[i]) >= 2
    decreases |gs|
  {
    var init := gs[..|gs| - 1];
    if j == |gs| - 1 {
      CountPositive(init, gs[i]);
      assert init[i] == gs[i];
    } else {
      CountTwice(init, i, j);
    }
  }

  lemma {:induction false} CountersNotRestored(gs: seq<Guid>, i: nat, j: nat)
    requires i < j < |gs| && gs[i] == gs[j]
    ensures UndoAll(ReplaceAll(Zeros(gs), Counters(gs)), Counters(gs)) != Zeros(gs)
    ensures Applies(Zeros(gs), Counters(gs))
  {
    var p := Zeros(gs);
    CountersApply(p, gs);
    var q := ReplaceAll(p, Counters(gs));
    CountersUndone(q, gs, q);
    CountTwice(gs, i, j);
    assert UndoAll(q, Counters(gs))[gs[i]] > 0;
  }

  /** Undoing in installation order restores every interface, whatever the interfaces are, exactly if no protocol was
      changed twice. */
  lemma UndoRestoresIff(gs: seq<Guid>)
    ensures Distinct(gs)
       <==> forall p: Protocols, cs: seq<Change> | Targets(cs) == gs && Applies(p, cs) ::
              UndoAll(ReplaceAll(p, cs), cs) == p
  {
    if Distinct(gs) {
      forall p: Protocols, cs: seq<Change> | Targets(cs) == gs && Applies(p, cs)
        ensures UndoAll(ReplaceAll(p, cs), cs) == p
      {
        UndoRestores(p, cs);
      }
    } else {
      var i, j :| 0 <= i < j < |gs| && gs[i] == gs[j];
      CountersNotRestored(gs, i, j);
      assert Targets(Counters(gs)) == gs;
    }
  }

  /** All or nothing for reinstallation: with distinct protocols a failed call leaves the database as it was. */
  lemma FailedReinstallRestores(db: Database, db0: Database, h: Handle, cs: seq<Change>)
    requires ReinstallResult(false, db, db0, h, cs) && Distinct(Targets(cs))
    ensures db == db0
  {
    hide ReplaceAll, UndoAll, Applies, Distinct;
    var p := ProtocolsOn(db0, h);
    var k :| 0 <= k < |cs|
      && Applies(p, cs[..k]) && OnHandle(db, db0, h, UndoAll(ReplaceAll(p, cs[..k]), cs[..k]));
    DistinctPrefix(cs, k);
    UndoRestores(p, cs[..k]);
  }

  lemma DistinctPrefix(cs: seq<Change>, k: nat)
    requires k <= |cs| && Distinct(Targets(cs))
    ensures Distinct(Targets(cs[..k]))
  {
    assert forall i | 0 <= i < k :: Targets(cs[..k])[i] == Targets(cs)[i];
  }
}
