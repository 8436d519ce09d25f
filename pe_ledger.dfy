/**
 * The processing-element ledger kept by the PE-counting placement policies:
 * `vmTable` (VM uid -> host), `usedPes` (VM uid -> PEs reserved for it) and
 * `freePes` (free PEs per host, indexed by the host's position in the host
 * list). Hosts are named by that position.
 */
module PeLedger {

  /** The unique id of a VM, `Vm.getUid(userId, vmId)`. */
  datatype Uid = Uid(userId: int, vmId: int)

  datatype Ledger = Ledger(vmTable: map<Uid, nat>, usedPes: map<Uid, int>, freePes: seq<int>)

  ghost function Pick(keys: set<Uid>): (k: Uid)
    requires keys != {}
    ensures k in keys
  {
    var k :| k in keys; k
  }

  /** The PEs VM `k` holds on host `h`. */
  ghost function Share(vmTable: map<Uid, nat>, usedPes: map<Uid, int>, h: nat, k: Uid): int
    requires k in vmTable && k in usedPes
  {
    if vmTable[k] == h then usedPes[k] else 0
  }

  /** The PEs the VMs in `keys` hold on host `h`. */
  ghost function UsedOn(vmTable: map<Uid, nat>, usedPes: map<Uid, int>, h: nat, keys: set<Uid>): int
    requires keys <= vmTable.Keys && keys <= usedPes.Keys
    decreases keys
  {
    if keys == {} then 0
    else
      var k := Pick(keys);
      Share(vmTable, usedPes, h, k) + UsedOn(vmTable, usedPes, h, keys - {k})
  }

  /**
   * The ledger invariant: both maps name the same VMs, every VM sits on an
   * existing host, and each host's free count is its PE count minus the PEs of
   * the VMs mapped to it.
   */
  ghost predicate Consistent(hostPes: seq<nat>, l: Ledger)
  {
    && |l.freePes| == |hostPes|
    && l.vmTable.Keys == l.usedPes.Keys
    && (forall u :: u in l.vmTable ==> l.vmTable[u] < |hostPes|)
    && forall h :: 0 <= h < |hostPes| ==>
         l.freePes[h] == hostPes[h] - UsedOn(l.vmTable, l.usedPes, h, l.vmTable.Keys)
  }

  /** The ledger right after construction: every host completely free. */
  function Initial(hostPes: seq<nat>): (l: Ledger)
    ensures Consistent(hostPes, l)
    ensures l.vmTable == map[] && l.usedPes == map[]
    ensures forall h :: 0 <= h < |hostPes| ==> l.freePes[h] == hostPes[h]
  {
    Ledger(map[], map[], hostPes)
  }

  /**
   * The three updates of a successful allocation of `uid` on host `h` for `req`
   * PEs, as the source writes them (an earlier entry for `uid` is overwritten).
   */
  function Book(l: Ledger, uid: Uid, h: nat, req: int): Ledger
    requires h < |l.freePes|
  {
    Ledger(l.vmTable[uid := h], l.usedPes[uid := req], l.freePes[h := l.freePes[h] - req])
  }

  /** Deallocation: both entries go and the recorded PEs return to their host. */
  function Release(l: Ledger, uid: Uid): Ledger
    requires uid in l.vmTable && uid in l.usedPes && l.vmTable[uid] < |l.freePes|
  {
    var h := l.vmTable[uid];
    Ledger(l.vmTable - {uid}, l.usedPes - {uid}, l.freePes[h := l.freePes[h] + l.usedPes[uid]])
  }

  lemma {:induction false} UsedOnRemove(vmTable: map<Uid, nat>, usedPes: map<Uid, int>, h: nat, keys: set<Uid>, k: Uid)
    requires keys <= vmTable.Keys && keys <= usedPes.Keys && k in keys
    ensures UsedOn(vmTable, usedPes, h, keys) == Share(vmTable, usedPes, h, k) + UsedOn(vmTable, usedPes, h, keys - {k})
    decreases keys
  {
    var p := Pick(keys);
    if p != k {
      calc {
        UsedOn(vmTable, usedPes, h, keys);
        Share(vmTable, usedPes, h, p) + UsedOn(vmTable, usedPes, h, keys - {p});
        { UsedOnRemove(vmTable, usedPes, h, keys - {p}, k); }
        Share(vmTable, usedPes, h, p) + Share(vmTable, usedPes, h, k) + UsedOn(vmTable, usedPes, h, keys - {p} - {k});
        { assert keys - {p} - {k} == keys - {k} - {p}; }
        Share(vmTable, usedPes, h, k) + Share(vmTable, usedPes, h, p) + UsedOn(vmTable, usedPes, h, keys - {k} - {p});
        { UsedOnRemove(vmTable, usedPes, h, keys - {k}, p); }
        Share(vmTable, usedPes, h, k) + UsedOn(vmTable, usedPes, h, keys - {k});
      }
    }
  }

  lemma {:induction false} UsedOnAgree(t1: map<Uid, nat>, u1: map<Uid, int>, t2: map<Uid, nat>, u2: map<Uid, int>, h: nat, keys: set<Uid>)
    requires keys <= t1.Keys && keys <= u1.Keys && keys <= t2.Keys && keys <= u2.Keys
    requires forall k :: k in keys ==> t1[k] == t2[k] && u1[k] == u2[k]
    ensures UsedOn(t1, u1, h, keys) == UsedOn(t2, u2, h, keys)
    decreases keys
  {
    if keys != {} {
      var p := Pick(keys);
      UsedOnAgree(t1, u1, t2, u2, h, keys - {p});
    }
  }

  /** Booking a VM that is not yet in the table keeps the ledger invariant. */
  lemma BookKeepsConsistent(hostPes: seq<nat>, l: Ledger, uid: Uid, h: nat, req: int)
    requires Consistent(hostPes, l)
    requires uid !in l.vmTable && h < |hostPes|
    ensures Consistent(hostPes, Book(l, uid, h, req))
  {
    var l' := Book(l, uid, h, req);
    assert l'.vmTable.Keys == l.vmTable.Keys + {uid};
    forall g | 0 <= g < |hostPes|
      ensures l'.freePes[g] == hostPes[g] - UsedOn(l'.vmTable, l'.usedPes, g, l'.vmTable.Keys)
    {
      UsedOnRemove(l'.vmTable, l'.usedPes, g, l'.vmTable.Keys, uid);
      assert l'.vmTable.Keys - {uid} == l.vmTable.Keys;
      UsedOnAgree(l'.vmTable, l'.usedPes, l.vmTable, l.usedPes, g, l.vmTable.Keys);
    }
  }

  /** Releasing a VM that is in the table keeps the ledger invariant. */
  lemma ReleaseKeepsConsistent(hostPes: seq<nat>, l: Ledger, uid: Uid)
    requires Consistent(hostPes, l)
    requires uid in l.vmTable
    ensures Consistent(hostPes, Release(l, uid))
  {
    var l' := Release(l, uid);
    assert l'.vmTable.Keys == l.vmTable.Keys - {uid};
    forall g | 0 <= g < |hostPes|
      ensures l'.freePes[g] == hostPes[g] - UsedOn(l'.vmTable, l'.usedPes, g, l'.vmTable.Keys)
    {
      UsedOnRemove(l.vmTable, l.usedPes, g, l.vmTable.Keys, uid);
      UsedOnAgree(l'.vmTable, l'.usedPes, l.vmTable, l.usedPes, g, l'.vmTable.Keys);
    }
  }

  /** Allocation followed by deallocation of a fresh VM restores the ledger exactly. */
  lemma ReleaseUndoesBook(hostPes: seq<nat>, l: Ledger, uid: Uid, h: nat, req: int)
    requires Consistent(hostPes, l)
    requires uid !in l.vmTable && h < |hostPes|
    ensures Release(Book(l, uid, h, req), uid) == l
  {
    var r := Release(Book(l, uid, h, req), uid);
    assert r.vmTable == l.vmTable;
    assert r.usedPes == l.usedPes;
    assert r.freePes == l.freePes;
  }

  /**
   * Booking a VM that already has an entry leaves its old PEs counted as free
   * on neither host: the free counts no longer match the table.
   */
  lemma BookOverExistingEntryBreaksLedger()
    ensures var hostPes := [4, 4];
            var once := Book(Initial(hostPes), Uid(0, 0), 0, 2);
            Consistent(hostPes, once) && !Consistent(hostPes, Book(once, Uid(0, 0), 1, 2))
  {
    var hostPes := [4, 4];
    var u := Uid(0, 0);
    var once := Book(Initial(hostPes), u, 0, 2);
    BookKeepsConsistent(hostPes, Initial(hostPes), u, 0, 2);
    var twice := Book(once, u, 1, 2);
    assert twice.vmTable.Keys == {u};
    assert Pick({u}) == u;
    assert {u} - {u} == {};
    assert UsedOn(twice.vmTable, twice.usedPes, 0, {u}) == 0;
    assert twice.freePes[0] == 2;
  }
}
