/** The VXLAN overlay's ledger of what it installed. One entry's add and del are all or nothing;
    the kernel keeps one route and neighbour per overlay address, for peers and for remote
    containers alike, and refuses to add a second one. */
module Vxlan {
  import opened Text
  import opened Entries
  import M = MetadataStore

  type Ledger = map<string, Entry>

  // ---------------------------------------------------------------- the diff

  datatype Diff = Diff(toAdd: Ledger, toDel: Ledger, toUpd: Ledger, noop: Ledger)

  /** The four maps split the keys of both inputs by presence and equality. */
  ghost predicate IsDiff(d: Diff, oldMap: Ledger, newMap: Ledger, seen: set<string>) {
    && d.toAdd.Keys == seen - oldMap.Keys && d.toDel.Keys == oldMap.Keys - seen
    && d.toUpd.Keys + d.noop.Keys == seen * oldMap.Keys && d.toUpd.Keys !! d.noop.Keys && seen <= newMap.Keys
    && (forall k :: k in d.toAdd ==> d.toAdd[k] == newMap[k])
    && (forall k :: k in d.toDel ==> d.toDel[k] == oldMap[k])
    && (forall k :: k in d.toUpd ==> d.toUpd[k] == newMap[k] && newMap[k] != oldMap[k])
    && (forall k :: k in d.noop ==> d.noop[k] == newMap[k] == oldMap[k])
  }

  lemma AddStep(d: Diff, oldMap: Ledger, newMap: Ledger, seen: set<string>, ip: string)
    requires IsDiff(d, oldMap, newMap, seen) && ip in newMap && ip !in seen && ip !in d.toDel
    ensures IsDiff(d.(toAdd := d.toAdd[ip := newMap[ip]]), oldMap, newMap, seen + {ip})
  {
    assert ip !in oldMap by { assert ip !in oldMap.Keys - seen; }
    assert (seen + {ip}) - oldMap.Keys == (seen - oldMap.Keys) + {ip};
    assert oldMap.Keys - (seen + {ip}) == oldMap.Keys - seen;
    assert (seen + {ip}) * oldMap.Keys == seen * oldMap.Keys;
  }

  lemma UpdateStep(d: Diff, oldMap: Ledger, newMap: Ledger, seen: set<string>, ip: string)
    requires IsDiff(d, oldMap, newMap, seen) && ip in newMap && ip !in seen && ip in d.toDel
    requires newMap[ip] != d.toDel[ip]
    ensures IsDiff(d.(toUpd := d.toUpd[ip := newMap[ip]], toDel := d.toDel - {ip}), oldMap, newMap, seen + {ip})
  {
    MatchedKeys(oldMap, seen, ip);
    assert ip in d.toDel.Keys && ip !in d.toUpd.Keys + d.noop.Keys;
  }

  lemma NoopStep(d: Diff, oldMap: Ledger, newMap: Ledger, seen: set<string>, ip: string)
    requires IsDiff(d, oldMap, newMap, seen) && ip in newMap && ip !in seen && ip in d.toDel
    requires newMap[ip] == d.toDel[ip]
    ensures IsDiff(d.(noop := d.noop[ip := newMap[ip]], toDel := d.toDel - {ip}), oldMap, newMap, seen + {ip})
  {
    MatchedKeys(oldMap, seen, ip);
    assert ip in d.toDel.Keys && ip !in d.toUpd.Keys + d.noop.Keys;
  }

  lemma MatchedKeys(oldMap: Ledger, seen: set<string>, ip: string)
    requires ip !in seen
    ensures ip in oldMap.Keys ==>
      && (seen + {ip}) - oldMap.Keys == seen - oldMap.Keys
      && oldMap.Keys - (seen + {ip}) == (oldMap.Keys - seen) - {ip}
      && (seen + {ip}) * oldMap.Keys == seen * oldMap.Keys + {ip}
  {
  }

  method CalculateDiff(oldMap: Ledger, newMap: Ledger) returns (d: Diff)
    ensures IsDiff(d, oldMap, newMap, newMap.Keys)
  {
    // toDel starts as the copy of the old map from which matched addresses are taken.
    d := Diff(map[], oldMap, map[], map[]);
    var rest := newMap.Keys;
    while rest != {}
      invariant rest <= newMap.Keys
      invariant IsDiff(d, oldMap, newMap, newMap.Keys - rest)
    {
      var ip :| ip in rest;
      ghost var seen := newMap.Keys - rest;
      rest := rest - {ip};
      assert newMap.Keys - rest == seen + {ip};
      var entry := newMap[ip];
      if ip !in d.toDel {
        AddStep(d, oldMap, newMap, seen, ip);
        d := d.(toAdd := d.toAdd[ip := entry]);
      } else if entry != d.toDel[ip] {
        UpdateStep(d, oldMap, newMap, seen, ip);
        d := d.(toUpd := d.toUpd[ip := entry], toDel := d.toDel - {ip});
      } else {
        NoopStep(d, oldMap, newMap, seen, ip);
        d := d.(noop := d.noop[ip := entry], toDel := d.toDel - {ip});
      }
    }
  }

  // ---------------------------------------------------------------- the kernel

  /** What is installed for an overlay address: a peer or a remote container, and its entry. */
  datatype Row = Row(peer: bool, entry: Entry)
  type Table = map<string, Row>

  class Kernel {
    var table: Table
    ghost var calls: nat
    ghost var failures: nat

    method Add(peer: bool, key: string, e: Entry) returns (ok: bool)
      modifies this
      ensures calls == old(calls) + 1
      ensures failures == old(failures) + if ok then 0 else 1
      ensures table == if ok then old(table)[key := Row(peer, e)] else old(table)
      ensures ok ==> key !in old(table)
    {
      calls := calls + 1;
      ok := *;
      if key in table { ok := false; }
      if ok { table := table[key := Row(peer, e)]; } else { failures := failures + 1; }
    }

    method Del(key: string) returns (ok: bool)
      modifies this
      ensures calls == old(calls) + 1
      ensures failures == old(failures) + if ok then 0 else 1
      ensures table == if ok then old(table) - {key} else old(table)
    {
      calls := calls + 1;
      ok := *;
      if ok { table := table - {key}; } else { failures := failures + 1; }
    }
  }

  // ---------------------------------------------------------------- what a ledger means

  /** The ledger of a class is exactly the class's rows in the kernel. */
  ghost predicate Tracks(peer: bool, m: Ledger, table: Table) {
    && (forall k :: k in m <==> k in table && table[k].peer == peer)
    && (forall k :: k in m ==> table[k].entry == m[k])
  }

  /** Rows of the other class are untouched. */
  ghost predicate OthersKept(peer: bool, before: Table, after: Table) {
    forall k :: (k in after && after[k].peer != peer <==> k in before && before[k].peer != peer)
      && (k in after && after[k].peer != peer ==> after[k] == before[k])
  }

  ghost predicate AddedRows(peer: bool, before: Table, added: Ledger, after: Table) {
    && after.Keys == before.Keys + added.Keys && before.Keys !! added.Keys
    && (forall k :: k in before ==> after[k] == before[k])
    && (forall k :: k in added ==> after[k] == Row(peer, added[k]))
  }

  /** An address already installed does not come back as this node's own entry. */
  ghost predicate NoSelfTakeover(peer: bool, prev: Ledger, current: Ledger) {
    peer ==> forall k :: k in current && k in prev ==> !current[k].self
  }

  class Overlay {
    /** An entry's address without its prefix length. */
    const ipKey: Entry -> string
    const cidrOk: string -> bool
    const hostOk: string -> bool
    const kernel: Kernel
    const store: Store

    var prevPeer: Ledger
    var prevRemote: Ledger
    var peersMapping: map<string, string>

    constructor (ipKey: Entry -> string, cidrOk: string -> bool, hostOk: string -> bool, kernel: Kernel, store: Store)
      requires kernel.table == map[]
      ensures this.kernel == kernel && this.store == store && Valid()
      ensures this.ipKey == ipKey && this.cidrOk == cidrOk && this.hostOk == hostOk
    {
      this.ipKey, this.cidrOk, this.hostOk, this.kernel, this.store := ipKey, cidrOk, hostOk, kernel, store;
      prevPeer, prevRemote, peersMapping := map[], map[], map[];
    }

    /** A store map indexed by its entries' addresses. */
    ghost predicate WellKeyed(m: Ledger) {
      forall k :: k in m ==> ipKey(m[k]) == k
    }

    /** The entry can be turned into kernel calls. */
    predicate Buildable(peer: bool, e: Entry) {
      cidrOk(e.ip) && (peer ==> hostOk(e.hostIp))
    }

    /** handlePeerEntries and handleNonPeerRemoteEntries try to add the entry: a peer that is not
        this node, or a container whose host has a known peer. */
    predicate Attempted(peer: bool, via: set<string>, e: Entry) {
      Buildable(peer, e) && if peer then !e.self else e.hostIp != "" && e.hostIp in via
    }

    ghost predicate Installable(peer: bool, m: Ledger) {
      forall k :: k in m ==> ipKey(m[k]) == k && Buildable(peer, m[k]) && (peer ==> !m[k].self)
    }

    /** Both ledgers equal exactly what is installed. */
    ghost predicate Valid()
      reads this, kernel
    {
      Tracks(true, prevPeer, kernel.table) && Tracks(false, prevRemote, kernel.table)
      && Installable(true, prevPeer) && Installable(false, prevRemote)
    }

    /** Nothing is left to add or delete for this class. */
    ghost predicate Settled(peer: bool, via: set<string>, m: Ledger, current: Ledger) {
      m.Keys <= current.Keys && forall k :: k in current && k !in m ==> !Attempted(peer, via, current[k])
    }

    method AddAll(peer: bool, via: set<string>, toAdd: Ledger) returns (added: Ledger)
      requires WellKeyed(toAdd)
      modifies kernel
      ensures added.Keys <= toAdd.Keys
        && forall k :: k in added ==> added[k] == toAdd[k] && Attempted(peer, via, toAdd[k])
      ensures AddedRows(peer, old(kernel.table), added, kernel.table)
      ensures kernel.failures >= old(kernel.failures) && kernel.calls >= old(kernel.calls)
      ensures kernel.failures == old(kernel.failures) ==> forall k :: k in toAdd && k !in added ==>
        !Attempted(peer, via, toAdd[k])
      ensures (forall k :: k in toAdd ==> !Attempted(peer, via, toAdd[k])) ==>
        kernel.calls == old(kernel.calls) && kernel.failures == old(kernel.failures)
    {
      added := map[];
      var rest := toAdd.Keys;
      while rest != {}
        invariant rest <= toAdd.Keys && added.Keys <= toAdd.Keys - rest
        invariant forall k :: k in added ==> added[k] == toAdd[k] && Attempted(peer, via, toAdd[k])
        invariant AddedRows(peer, old(kernel.table), added, kernel.table)
        invariant kernel.failures >= old(kernel.failures) && kernel.calls >= old(kernel.calls)
        invariant kernel.failures == old(kernel.failures) ==> forall k :: k in toAdd && k !in added && k !in rest ==>
          !Attempted(peer, via, toAdd[k])
        invariant (forall k :: k in toAdd ==> !Attempted(peer, via, toAdd[k])) ==>
          kernel.calls == old(kernel.calls) && kernel.failures == old(kernel.failures)
      {
        var k :| k in rest;
        rest := rest - {k};
        if Attempted(peer, via, toAdd[k]) {
          var ok := kernel.Add(peer, ipKey(toAdd[k]), toAdd[k]);
          if ok { added := added[k := toAdd[k]]; }
        }
      }
    }

    method DelAll(peer: bool, toDel: Ledger) returns (kept: Ledger)
      requires Installable(peer, toDel)
      modifies kernel
      ensures kept.Keys <= toDel.Keys && forall k :: k in kept ==> kept[k] == toDel[k]
      ensures kernel.table == old(kernel.table) - (toDel.Keys - kept.Keys)
      ensures kernel.failures >= old(kernel.failures) && kernel.calls >= old(kernel.calls)
      ensures kernel.failures == old(kernel.failures) ==> kept == map[]
      ensures toDel == map[] ==> kernel.calls == old(kernel.calls) && kernel.failures == old(kernel.failures)
    {
      kept := map[];
      var rest := toDel.Keys;
      while rest != {}
        invariant rest <= toDel.Keys && kept.Keys <= toDel.Keys - rest
        invariant forall k :: k in kept ==> kept[k] == toDel[k]
        invariant kernel.table == old(kernel.table) - (toDel.Keys - rest - kept.Keys)
        invariant kernel.failures >= old(kernel.failures) && kernel.calls >= old(kernel.calls)
        invariant kernel.failures == old(kernel.failures) ==> kept == map[]
        invariant toDel == map[] ==> kernel.calls == old(kernel.calls) && kernel.failures == old(kernel.failures)
      {
        var k :| k in rest;
        rest := rest - {k};
        if (peer && toDel[k].self) || !Buildable(peer, toDel[k]) { continue; }
        var ok := kernel.Del(ipKey(toDel[k]));
        if !ok { kept := kept[k := toDel[k]]; }
      }
    }

    /** The part of the previous ledger carried over: equal entries, and entries whose update is
        deliberately not processed. A peer that became this node's own entry is dropped. */
    ghost predicate CarriedOver(peer: bool, prev: Ledger, current: Ledger, next: Ledger) {
      && (forall k :: k in next <==> k in prev && k in current && !(peer && current[k].self))
      && (forall k :: k in next ==> next[k] == prev[k])
    }

    /** The addresses present before and now are those of noop and toUpd, and only toUpd's differ. */
    lemma MatchedEntries(prev: Ledger, current: Ledger, d: Diff, k: string)
      requires IsDiff(d, prev, current, current.Keys)
      ensures k in prev && k in current <==> k in d.noop || k in d.toUpd
      ensures !(k in d.noop && k in d.toUpd)
      ensures k in d.noop ==> d.noop[k] == current[k] == prev[k]
      ensures k in d.toUpd ==> d.toUpd[k] == current[k] && k in prev
    {
      assert k in current.Keys * prev.Keys <==> k in d.toUpd.Keys + d.noop.Keys;
      assert !(k in d.toUpd.Keys && k in d.noop.Keys);
    }

    method CarryOver(peer: bool, prev: Ledger, d: Diff, ghost current: Ledger) returns (next: Ledger)
      requires Installable(peer, prev) && IsDiff(d, prev, current, current.Keys)
      ensures CarriedOver(peer, prev, current, next)
    {
      next := d.noop;
      var rest := d.toUpd.Keys;
      forall k
        ensures k in prev && k in current <==> k in d.noop || k in d.toUpd
        ensures !(k in d.noop && k in d.toUpd)
        ensures k in d.noop ==> d.noop[k] == current[k] == prev[k]
        ensures k in d.toUpd ==> d.toUpd[k] == current[k] && k in prev
      {
        MatchedEntries(prev, current, d, k);
      }
      while rest != {}
        invariant rest <= d.toUpd.Keys
        invariant forall k :: k in next <==>
          k in d.noop || (k in d.toUpd && k !in rest && !(peer && d.toUpd[k].self))
        invariant forall k :: k in next ==> k in prev && next[k] == prev[k]
      {
        var k :| k in rest;
        rest := rest - {k};
        if !(peer && d.toUpd[k].self) { next := next[k := prev[k]]; }
      }
      forall k | k in d.noop ensures !(peer && current[k].self) { assert prev[k] == current[k]; }
    }

    /** One class of entries. Its ledger stays equal to the kernel's rows exactly when no installed
        address turned into this node's own entry. */
    method HandleEntries(peer: bool, via: set<string>, prev: Ledger, current: Ledger) returns (next: Ledger)
      requires Tracks(peer, prev, kernel.table) && Installable(peer, prev) && WellKeyed(current)
      modifies kernel
      ensures Installable(peer, next) && OthersKept(peer, old(kernel.table), kernel.table)
      ensures Tracks(peer, next, kernel.table) <==> NoSelfTakeover(peer, prev, current)
      ensures NoSelfTakeover(peer, next, current)
      ensures RowsKept(prev, current, old(kernel.table), kernel.table)
      ensures NewRows(peer, via, current, old(kernel.table), kernel.table)
      ensures kernel.failures >= old(kernel.failures) && kernel.calls >= old(kernel.calls)
      ensures kernel.failures == old(kernel.failures) && NoSelfTakeover(peer, prev, current) ==>
        Settled(peer, via, next, current)
      ensures Settled(peer, via, prev, current) ==>
        kernel.calls == old(kernel.calls) && kernel.failures == old(kernel.failures)
      ensures Settled(peer, via, prev, current) && NoSelfTakeover(peer, prev, current) ==> next == prev
    {
      ghost var added, kept;
      next, added, kept := ApplyDiff(peer, via, prev, current);
      LedgerAfter(peer, prev, current, old(kernel.table), kernel.table, added, kept, next);
      SettledAfter(peer, via, prev, current, added, kept, next);
    }

    /** The rows of installed addresses that are still listed are left alone. */
    ghost predicate RowsKept(prev: Ledger, current: Ledger, before: Table, after: Table) {
      forall k :: k in prev && k in current && k in before ==> k in after && after[k] == before[k]
    }

    /** Every row was there before or is a listed entry that was tried. */
    ghost predicate NewRows(peer: bool, via: set<string>, current: Ledger, before: Table, after: Table) {
      forall k :: k in after ==>
        || (k in before && after[k] == before[k])
        || (k in current && after[k] == Row(peer, current[k]) && Attempted(peer, via, current[k]))
    }

    method ApplyDiff(peer: bool, via: set<string>, prev: Ledger, current: Ledger)
      returns (next: Ledger, ghost added: Ledger, ghost kept: Ledger)
      requires Installable(peer, prev) && WellKeyed(current)
      modifies kernel
      ensures Outcome(peer, prev, current, added, kept) && IsNext(peer, prev, current, added, kept, next)
      ensures IsAfter(peer, prev, current, old(kernel.table), kernel.table, added, kept)
      ensures forall k :: k in added ==> Attempted(peer, via, added[k])
      ensures kernel.failures >= old(kernel.failures) && kernel.calls >= old(kernel.calls)
      ensures kernel.failures == old(kernel.failures) ==> kept == map[] && AllTried(peer, via, prev, current, added)
      ensures Settled(peer, via, prev, current) ==>
        kernel.calls == old(kernel.calls) && kernel.failures == old(kernel.failures) && added == map[]
    {
      var d := CalculateDiff(prev, current);
      var carried := CarryOver(peer, prev, d, current);
      assert WellKeyed(d.toAdd) && Installable(peer, d.toDel);
      var a := AddAll(peer, via, d.toAdd);
      ghost var middle := kernel.table;
      var k := DelAll(peer, d.toDel);
      next, added, kept := carried + a + k, a, k;
      DiffOutcome(peer, via, prev, current, d, added, kept);
      NextLedger(peer, prev, current, carried, added, kept, next);
      RowsAfter(peer, prev, current, old(kernel.table), middle, kernel.table, added, kept);
    }

    ghost predicate AllTried(peer: bool, via: set<string>, prev: Ledger, current: Ledger, added: Ledger) {
      forall k :: k in current && k !in prev && k !in added ==> !Attempted(peer, via, current[k])
    }

    lemma DiffOutcome(peer: bool, via: set<string>, prev: Ledger, current: Ledger, d: Diff, added: Ledger, kept: Ledger)
      requires IsDiff(d, prev, current, current.Keys)
      requires added.Keys <= d.toAdd.Keys
        && forall k :: k in added ==> added[k] == d.toAdd[k] && Attempted(peer, via, d.toAdd[k])
      requires kept.Keys <= d.toDel.Keys && forall k :: k in kept ==> kept[k] == d.toDel[k]
      ensures Outcome(peer, prev, current, added, kept)
      ensures (forall k :: k in d.toAdd && k !in added ==> !Attempted(peer, via, d.toAdd[k])) ==>
        AllTried(peer, via, prev, current, added)
      ensures Settled(peer, via, prev, current) ==> d.toDel == map[] && added == map[]
      ensures Settled(peer, via, prev, current) ==> forall k :: k in d.toAdd ==> !Attempted(peer, via, d.toAdd[k])
    {
      assert forall k :: k in d.toAdd <==> k in current && k !in prev by {
        assert forall k :: k in d.toAdd <==> k in current.Keys - prev.Keys;
      }
      assert forall k :: k in d.toDel <==> k in prev && k !in current by {
        assert forall k :: k in d.toDel <==> k in prev.Keys - current.Keys;
      }
      assert forall k :: k in added ==> k in d.toAdd.Keys;
      assert forall k :: k in kept ==> k in d.toDel.Keys;
    }

    /** The new ledger, address by address. */
    ghost predicate IsNext(peer: bool, prev: Ledger, current: Ledger, added: Ledger, kept: Ledger, next: Ledger) {
      && (forall k :: k in next <==>
        (k in prev && k in current && !(peer && current[k].self)) || k in added || k in kept)
      && (forall k :: k in next ==> next[k] == if k in prev then prev[k] else if k in added then added[k] else next[k])
    }

    ghost predicate Outcome(peer: bool, prev: Ledger, current: Ledger, added: Ledger, kept: Ledger) {
      && (forall k :: k in added ==>
        k in current && k !in prev && added[k] == current[k] && Buildable(peer, added[k]) && (peer ==> !added[k].self))
      && (forall k :: k in kept ==> k in prev && k !in current && kept[k] == prev[k])
    }

    lemma NextLedger(peer: bool, prev: Ledger, current: Ledger, carried: Ledger, added: Ledger, kept: Ledger,
                     next: Ledger)
      requires CarriedOver(peer, prev, current, carried) && Outcome(peer, prev, current, added, kept)
        && next == carried + added + kept
      ensures IsNext(peer, prev, current, added, kept, next)
    {
    }

    /** The new table, address by address. */
    ghost predicate IsAfter(peer: bool, prev: Ledger, current: Ledger, before: Table, after: Table, added: Ledger,
                            kept: Ledger) {
      && (forall k :: k in after <==> k in added || (k in before && !(k in prev && k !in current && k !in kept)))
      && (forall k :: k in after ==> after[k] == if k in added then Row(peer, added[k]) else before[k])
      && (forall k :: k in added ==> k !in before)
    }

    lemma RowsAfter(peer: bool, prev: Ledger, current: Ledger, before: Table, middle: Table, after: Table,
                    added: Ledger, kept: Ledger)
      requires Outcome(peer, prev, current, added, kept) && AddedRows(peer, before, added, middle)
      requires after == middle - ((prev.Keys - current.Keys) - kept.Keys)
      ensures IsAfter(peer, prev, current, before, after, added, kept)
    {
      assert forall k :: k in middle <==> k in before || k in added by {
        assert forall k :: k in middle <==> k in before.Keys + added.Keys;
      }
      assert forall k :: k in added ==> k in added.Keys && k !in before.Keys;
    }

    lemma NextIsInstallable(peer: bool, prev: Ledger, current: Ledger, added: Ledger, kept: Ledger, next: Ledger)
      requires Installable(peer, prev) && WellKeyed(current) && Outcome(peer, prev, current, added, kept)
      requires IsNext(peer, prev, current, added, kept, next)
      ensures Installable(peer, next) && NoSelfTakeover(peer, next, current)
    {
    }

    lemma OthersAfter(peer: bool, prev: Ledger, current: Ledger, before: Table, after: Table, added: Ledger,
                      kept: Ledger)
      requires Tracks(peer, prev, before) && IsAfter(peer, prev, current, before, after, added, kept)
      ensures OthersKept(peer, before, after)
    {
    }

    lemma LedgerAfter(peer: bool, prev: Ledger, current: Ledger, before: Table, after: Table, added: Ledger,
                      kept: Ledger, next: Ledger)
      requires Tracks(peer, prev, before) && Installable(peer, prev) && WellKeyed(current)
      requires Outcome(peer, prev, current, added, kept)
      requires IsNext(peer, prev, current, added, kept, next)
      requires IsAfter(peer, prev, current, before, after, added, kept)
      ensures Installable(peer, next) && OthersKept(peer, before, after) && NoSelfTakeover(peer, next, current)
      ensures Tracks(peer, next, after) <==> NoSelfTakeover(peer, prev, current)
    {
      NextIsInstallable(peer, prev, current, added, kept, next);
      OthersAfter(peer, prev, current, before, after, added, kept);
      if NoSelfTakeover(peer, prev, current) {
        LedgerTracks(peer, prev, current, before, after, added, kept, next);
      } else {
        var k :| k in current && k in prev && current[k].self;
        assert k in after && after[k].peer == peer && k !in next;
      }
    }

    lemma LedgerTracks(peer: bool, prev: Ledger, current: Ledger, before: Table, after: Table, added: Ledger,
                       kept: Ledger, next: Ledger)
      requires Tracks(peer, prev, before) && NoSelfTakeover(peer, prev, current)
      requires Outcome(peer, prev, current, added, kept)
      requires IsNext(peer, prev, current, added, kept, next)
      requires IsAfter(peer, prev, current, before, after, added, kept)
      ensures Tracks(peer, next, after)
    {
    }

    lemma SettledAfter(peer: bool, via: set<string>, prev: Ledger, current: Ledger, added: Ledger, kept: Ledger,
                       next: Ledger)
      requires Outcome(peer, prev, current, added, kept) && IsNext(peer, prev, current, added, kept, next)
      ensures kept == map[] && NoSelfTakeover(peer, prev, current) && AllTried(peer, via, prev, current, added)
              ==> Settled(peer, via, next, current)
      ensures Settled(peer, via, prev, current) && NoSelfTakeover(peer, prev, current) && added == map[] ==>
        next == prev
    {
      if Settled(peer, via, prev, current) && NoSelfTakeover(peer, prev, current) && added == map[] {
        assert forall k :: k in prev ==> k in current.Keys;
        assert forall k :: k in next <==> k in prev;
      }
    }

    /** buildPeersMapping: the hosts with a known peer; which of several peers of a host is kept
        depends on map order. */
    method BuildPeersMapping(entries: Ledger) returns (mapping: map<string, string>)
      ensures mapping.Keys == Via(entries)
      ensures forall k :: k in entries && entries[k].peer && !entries[k].self && cidrOk(entries[k].ip) ==>
        entries[k].hostIp in mapping
      ensures forall h :: h in mapping ==>
        exists k :: k in entries && MapsHost(entries[k]) && entries[k].hostIp == h && mapping[h] == ipKey(entries[k])
    {
      mapping := map[];
      var rest := entries.Keys;
      while rest != {}
        invariant rest <= entries.Keys
        invariant mapping.Keys == set k | k in entries.Keys - rest && MapsHost(entries[k]) :: entries[k].hostIp
        invariant forall h :: h in mapping ==>
          exists k :: k in entries && MapsHost(entries[k]) && entries[k].hostIp == h && mapping[h] == ipKey(entries[k])
      {
        var k :| k in rest;
        rest := rest - {k};
        if MapsHost(entries[k]) { mapping := mapping[entries[k].hostIp := ipKey(entries[k])]; }
      }
    }

    predicate MapsHost(e: Entry) { e.peer && !e.self && cidrOk(e.ip) }

    function Via(entries: Ledger): set<string> {
      set k | k in entries && MapsHost(entries[k]) :: entries[k].hostIp
    }

    /** Nothing is left to do for the store's present snapshot. */
    ghost predicate UpToDate()
      reads this, store
    {
      store.localIp !in store.peers && BothSettled(store.peers, store.remoteNonPeers)
    }

    /** Row k is a peer entry that maps its host: a peer of the other side of the tunnel. */
    ghost predicate WayTo(table: Table, k: string, host: string) {
      && k in table && table[k].peer && table[k].entry.hostIp == host
      && table[k].entry.peer && !table[k].entry.self && cidrOk(table[k].entry.ip)
    }

    /** Everything that can be installed is: each listed peer of another node whose addresses parse,
        and each container whose address parses and whose host has an installed peer. And nothing is
        installed that is no longer listed. */
    ghost predicate AllInstalled(peers: Ledger, remotes: Ledger, table: Table) {
      && (forall k :: k in peers && !peers[k].self && cidrOk(peers[k].ip) && hostOk(peers[k].hostIp) ==>
        k in table && table[k].peer)
      && (forall k, p :: k in remotes && WayTo(table, p, remotes[k].hostIp) ==>
        cidrOk(remotes[k].ip) && remotes[k].hostIp != "" ==> k in table && !table[k].peer)
      && (forall k :: k in table ==> if table[k].peer then k in peers else k in remotes)
    }

    /** Every row was there before, or is a listed peer of another node whose addresses parse, or a
        listed container whose address parses and whose host has an installed peer. */
    ghost predicate RowsAreListed(peers: Ledger, remotes: Ledger, before: Table, after: Table) {
      forall k :: k in after ==>
        || (k in before && after[k] == before[k])
        || (k in peers && after[k] == Row(true, peers[k]) && !peers[k].self &&
            cidrOk(peers[k].ip) && hostOk(peers[k].hostIp))
        || (k in remotes && after[k] == Row(false, remotes[k]) && cidrOk(remotes[k].ip) &&
            remotes[k].hostIp != "" && exists p :: WayTo(after, p, remotes[k].hostIp))
    }

    lemma SettledInstallsAll(peers: Ledger, remotes: Ledger, peerLedger: Ledger, remoteLedger: Ledger, table: Table)
      requires Tracks(true, peerLedger, table) && Tracks(false, remoteLedger, table)
      requires Settled(true, {}, peerLedger, peers) && Settled(false, Via(peerLedger), remoteLedger, remotes)
      ensures AllInstalled(peers, remotes, table)
    {
      forall k, p | k in remotes && cidrOk(remotes[k].ip) && remotes[k].hostIp != "" &&
        WayTo(table, p, remotes[k].hostIp)
        ensures k in table && !table[k].peer
      {
        assert p in peerLedger && MapsHost(peerLedger[p]);
        assert remotes[k].hostIp in Via(peerLedger);
      }
    }

    lemma NewRowsAreListed(peers: Ledger, remotes: Ledger, peerLedger: Ledger, before: Table, middle: Table,
                           after: Table)
      requires NewRows(true, {}, peers, before, middle) && NewRows(false, Via(peerLedger), remotes, middle, after)
      requires Tracks(true, peerLedger, after)
      ensures RowsAreListed(peers, remotes, before, after)
    {
      forall h | h in Via(peerLedger) ensures exists p :: WayTo(after, p, h) {
        var p :| p in peerLedger && MapsHost(peerLedger[p]) && peerLedger[p].hostIp == h;
        assert WayTo(after, p, h);
      }
    }

    /** configure. The local key leaves the store's own peer map. Whatever adds and deletes fail,
        the ledgers stay equal to what is installed, unless an installed peer address became this
        node's own; a failure-free pass leaves nothing to do, and with nothing to do a pass issues
        no kernel call and changes no ledger. */
    method Configure(vtepOk: bool) returns (ok: bool)
      requires Valid() && WellKeyed(store.peers) && WellKeyed(store.remoteNonPeers)
      modifies this, kernel, store`peers
      ensures ok == vtepOk && kernel.failures >= old(kernel.failures) && kernel.calls >= old(kernel.calls)
      ensures store.peers == if ok then old(store.peers) - {store.localIp} else old(store.peers)
      ensures var takeover := ok && !NoSelfTakeover(true, old(prevPeer), store.peers); Valid() <==> !takeover
      ensures ok && Valid() && kernel.failures == old(kernel.failures) ==> UpToDate()
      ensures old(UpToDate()) && Valid() ==>
        kernel.calls == old(kernel.calls) && prevPeer == old(prevPeer) && prevRemote == old(prevRemote)
      ensures ok ==> NoSelfTakeover(true, prevPeer, store.peers)
      ensures ok ==> RowsKept(old(prevPeer), store.peers, old(kernel.table), kernel.table)
      ensures ok && Valid() && kernel.failures == old(kernel.failures) ==>
        AllInstalled(store.peers, store.remoteNonPeers, kernel.table)
      ensures ok && Valid() ==> RowsAreListed(store.peers, store.remoteNonPeers, old(kernel.table), kernel.table)
      ensures !ok ==> kernel.table == old(kernel.table)
    {
      ok := vtepOk;
      if !ok { return; }
      store.peers := store.peers - {store.localIp};
      assert store.localIp !in old(store.peers) ==> store.peers == old(store.peers);
      HandleBoth(store.peers, store.remoteNonPeers);
    }

    /** Peers first; the peers then installed decide which containers have a way to be reached. */
    method HandleBoth(peers: Ledger, remotes: Ledger)
      requires Valid() && WellKeyed(peers) && WellKeyed(remotes)
      modifies this, kernel
      ensures Valid() <==> NoSelfTakeover(true, old(prevPeer), peers)
      ensures NoSelfTakeover(true, prevPeer, peers)
      ensures RowsKept(old(prevPeer), peers, old(kernel.table), kernel.table)
      ensures kernel.failures >= old(kernel.failures) && kernel.calls >= old(kernel.calls)
      ensures Valid() && kernel.failures == old(kernel.failures) ==>
        BothSettled(peers, remotes) && AllInstalled(peers, remotes, kernel.table)
      ensures Valid() ==> RowsAreListed(peers, remotes, old(kernel.table), kernel.table)
      ensures old(BothSettled(peers, remotes)) && Valid() ==>
        kernel.calls == old(kernel.calls) && prevPeer == old(prevPeer) && prevRemote == old(prevRemote)
    {
      prevPeer := HandleEntries(true, {}, prevPeer, peers);
      ghost var middle := kernel.table;
      OtherTracksKept(false, prevRemote, old(kernel.table), middle);
      peersMapping := BuildPeersMapping(prevPeer);
      prevRemote := HandleEntries(false, peersMapping.Keys, prevRemote, remotes);
      OtherTracksKept(true, prevPeer, middle, kernel.table);
      if Valid() {
        if BothSettled(peers, remotes) { SettledInstallsAll(peers, remotes, prevPeer, prevRemote, kernel.table); }
        NewRowsAreListed(peers, remotes, prevPeer, old(kernel.table), middle, kernel.table);
      }
    }

    lemma OtherTracksKept(peer: bool, m: Ledger, before: Table, after: Table)
      requires OthersKept(!peer, before, after)
      ensures Tracks(peer, m, before) <==> Tracks(peer, m, after)
    {
      if Tracks(peer, m, before) { TracksKept(peer, m, before, after); }
      if Tracks(peer, m, after) { TracksKept(peer, m, after, before); }
    }

    ghost predicate BothSettled(peers: Ledger, remotes: Ledger)
      reads this
    {
      Settled(true, {}, prevPeer, peers) && Settled(false, Via(prevPeer), prevRemote, remotes)
    }

    lemma TracksKept(peer: bool, m: Ledger, before: Table, after: Table)
      requires Tracks(peer, m, before) && (OthersKept(!peer, before, after) || OthersKept(!peer, after, before))
      ensures Tracks(peer, m, after)
    {
    }

    /** Any sequence of passes over any snapshots, each with its own local address and without an own
        entry under another address among its peers, whatever adds, deletes and interface checks
        fail: the ledgers equal what is installed throughout. */
    method ConfigureAll(snapshots: seq<Snapshot>, vtepOk: seq<bool>)
      requires Valid() && |vtepOk| == |snapshots|
      requires forall i :: 0 <= i < |snapshots| ==>
        WellKeyed(snapshots[i].peers) && WellKeyed(snapshots[i].remoteNonPeers)
      requires forall i :: 0 <= i < |snapshots| ==> OnlyLocalIsSelf(snapshots[i])
      modifies this, kernel, store
      ensures Valid()
    {
      for i := 0 to |snapshots|
        invariant Valid()
      {
        var snap := snapshots[i];
        store.localIp, store.peers, store.remoteNonPeers := snap.localIp, snap.peers, snap.remoteNonPeers;
        assert OnlyLocalIsSelf(snap);
        var ok := Configure(vtepOk[i]);
      }
    }

    /** After a failure-free pass, a second pass over the same snapshot makes no kernel call. */
    method ConfigureTwice() returns (ghost firstFailures: nat, ghost secondCalls: nat)
      requires Valid() && WellKeyed(store.peers) && WellKeyed(store.remoteNonPeers)
      requires NoSelfTakeover(true, prevPeer, store.peers - {store.localIp})
      modifies this, kernel, store`peers
      ensures Valid()
      ensures firstFailures == 0 ==> secondCalls == 0
    {
      var ok := Configure(true);
      firstFailures := kernel.failures - old(kernel.failures);
      ghost var calls := kernel.calls;
      ok := Configure(true);
      secondCalls := kernel.calls - calls;
    }
  }

  /** What a pass reads from the store; a reload may change all of it. */
  datatype Snapshot = Snapshot(localIp: string, peers: Ledger, remoteNonPeers: Ledger)

  /** The node's own entry is listed under its own address at most. */
  ghost predicate OnlyLocalIsSelf(snap: Snapshot) {
    forall k :: k in snap.peers && k != snap.localIp ==> !snap.peers[k].self
  }

  /** Snapshots built from metadata lose no row: their peer maps hold a self entry under the local
      address at most, exactly when the local address reads as self's primary address or self is no
      peer; and they are keyed by address. */
  lemma MetadataSnapshotsAreSafe(info: M.Info, x: M.Indexes, localIp: string)
    requires M.FromPeers(IpKey, info, x.peersMap) && M.Consistent(IpKey, x)
    ensures OnlyLocalIsSelf(Snapshot(localIp, x.peersMap, x.remoteNonPeers)) <==>
      localIp == M.Address(info.selfContainer) || forall k :: k in x.peersMap ==> !x.peersMap[k].self
    ensures forall k :: k in x.peersMap ==> IpKey(x.peersMap[k]) == k
    ensures forall k :: k in x.remoteNonPeers ==> IpKey(x.remoteNonPeers[k]) == k
  {
    forall k | k in x.peersMap
      ensures IpKey(x.peersMap[k]) == k && (x.peersMap[k].self ==> k == M.Address(info.selfContainer))
    {
      M.OnlySelfAddressIsSelf(info, x.peersMap, k);
    }
  }

  class Store {
    var localIp: string
    var peers: Ledger
    var remoteNonPeers: Ledger

    constructor (localIp: string, peers: Ledger, remoteNonPeers: Ledger)
      ensures this.localIp == localIp && this.peers == peers && this.remoteNonPeers == remoteNonPeers
    {
      this.localIp, this.peers, this.remoteNonPeers := localIp, peers, remoteNonPeers;
    }
  }

  /** An overlay with one installed peer. */
  method OnePeer(ipKey: Entry -> string, addr: string, peer: Entry, store: Store) returns (o: Overlay)
    requires ipKey(peer) == addr && !peer.self
    ensures fresh(o) && fresh(o.kernel) && o.store == store && o.ipKey == ipKey
    ensures o.Valid() && o.prevPeer == map[addr := peer] && o.prevRemote == map[]
    ensures o.kernel.table == map[addr := Row(true, peer)]
  {
    var kernel := new Kernel;
    kernel.table := map[];
    o := new Overlay(ipKey, s => true, s => true, kernel, store);
    kernel.table, o.prevPeer := map[addr := Row(true, peer)], map[addr := peer];
  }

  /** The one way to lose the ledger: a peer is installed, the store then lists its address as a
      self entry while the local address is another one, and the pass forgets the peer without
      deleting its row. */
  method SelfTakeoverLosesRow(ipKey: Entry -> string, addr: string, localIp: string, peer: Entry)
    returns (o: Overlay, ghost validBefore: bool)
    requires ipKey(peer) == addr == ipKey(peer.(self := true)) && addr != localIp && !peer.self
    ensures validBefore && o.store.localIp == localIp && o.store.peers == map[addr := peer.(self := true)]
    ensures !o.Valid() && addr !in o.prevPeer && addr in o.kernel.table
  {
    var listed := map[addr := peer.(self := true)];
    var store := new Store(localIp, listed, map[]);
    o := OnePeer(ipKey, addr, peer, store);
    validBefore := o.Valid();
    assert listed[addr].self && addr in o.prevPeer && listed - {localIp} == listed;
    var ok := o.Configure(true);
  }

  /** Such a state and snapshot: 10.42.0.2 is installed and comes back as a self entry at 10.42.0.1. */
  method SelfTakeoverExample() returns (o: Overlay, ghost validBefore: bool)
    ensures validBefore && o.store.localIp == "10.42.0.1"
    ensures o.store.peers == map["10.42.0.2" := Entry("10.42.0.2/16", "192.0.2.2", true, true)]
    ensures !o.Valid() && "10.42.0.2" !in o.prevPeer && "10.42.0.2" in o.kernel.table
  {
    var addr := "10.42.0.2";
    var peer := Entry(addr + "/" + "16", "192.0.2.2", false, true);
    BeforeSlashOfSuffixed(addr, "16");
    assert BeforeSlash(addr) == addr;
    assert peer.ip == "10.42.0.2/16";
    assert "10.42.0.1"[8] != addr[8];
    o, validBefore := SelfTakeoverLosesRow(IpKey, addr, "10.42.0.1", peer);
  }
}
