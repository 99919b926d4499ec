/** Reconciliation of the kernel's XFRM policies. The kernel keeps one policy per direction and
    selector (the SPD of section 4.4.1 of RFC 4301); the overlay compares policies by `toKey`,
    which also covers the first template's endpoints, so a changed endpoint is a deletion
    followed by an addition under the same selector. */
module Xfrm {
  import opened Text

  datatype Dir = In | Out | Fwd | Socket(n: nat)

  /** Addresses and networks appear as the text Go prints for them; "" stands for nil. */
  datatype Tmpl = Tmpl(src: string, dst: string, reqId: nat, other: string)
  datatype Policy = Policy(dir: Dir, src: string, dst: string, tmpls: seq<Tmpl>, priority: nat)
  datatype Selector = Selector(dir: Dir, src: string, dst: string)

  type Table = map<Selector, Policy>
  type Keyed = map<string, Policy>

  const REQ_ID := 1234

  function SelectorOf(p: Policy): Selector { Selector(p.dir, p.src, p.dst) }

  predicate Managed(p: Policy) { !p.dir.Socket? }

  function DirText(d: Dir): (s: string)
    ensures '-' !in s
  {
    match d
    case In => "dir in"
    case Out => "dir out"
    case Fwd => "dir fwd"
    case Socket(n) => var s := Decimal(n); assert AllDigits(s); "socket " + s
  }

  function KeyFields(p: Policy): seq<string> {
    [DirText(p.dir), p.src, p.dst] +
    if p.tmpls == [] then [""] else [p.tmpls[0].src, p.tmpls[0].dst, Decimal(p.tmpls[0].reqId)]
  }

  function ToKey(p: Policy): string { Join(KeyFields(p), '-') }

  /** Printed addresses and networks contain no dash. */
  predicate Dashless(p: Policy) {
    '-' !in p.src && '-' !in p.dst && (p.tmpls != [] ==> '-' !in p.tmpls[0].src && '-' !in p.tmpls[0].dst)
  }

  /** toKey is injective on direction, selector and first-template endpoints and request id. */
  lemma ToKeyInjective(p: Policy, q: Policy)
    requires Dashless(p) && Dashless(q) && Managed(p) && Managed(q)
    requires ToKey(p) == ToKey(q)
    ensures SelectorOf(p) == SelectorOf(q)
    ensures p.tmpls == [] <==> q.tmpls == []
    ensures p.tmpls != [] ==> p.tmpls[0].(other := "") == q.tmpls[0].(other := "")
  {
    DashlessFields(p);
    DashlessFields(q);
    var a, b := KeyFields(p), KeyFields(q);
    JoinInjective(a, b, '-');
    assert a[0] == b[0] && a[1] == b[1] && a[2] == b[2];
    assert DirText(In) != DirText(Out) && DirText(In) != DirText(Fwd) && DirText(Out) != DirText(Fwd) by {
      assert DirText(In)[4] != DirText(Out)[4] && DirText(In)[4] != DirText(Fwd)[4]
        && DirText(Out)[4] != DirText(Fwd)[4];
    }
    if p.tmpls != [] {
      assert a[3] == b[3] && a[4] == b[4] && a[5] == b[5];
      assert DigitsValue(a[5]) == p.tmpls[0].reqId && DigitsValue(b[5]) == q.tmpls[0].reqId;
    }
  }

  lemma DashlessFields(p: Policy)
    requires Dashless(p)
    ensures forall f :: f in KeyFields(p) ==> '-' !in f
  {
    if p.tmpls != [] {
      var d := Decimal(p.tmpls[0].reqId);
      assert AllDigits(d);
    }
  }

  /** Reconciliation is proved for any key that determines the selector; toKey is one. */
  type KeyOf = Policy -> string

  ghost predicate Lawful(key: KeyOf) {
    forall p, q :: Dashless(p) && Dashless(q) && Managed(p) && Managed(q) && key(p) == key(q) ==>
      SelectorOf(p) == SelectorOf(q)
  }

  lemma ToKeyIsLawful()
    ensures Lawful(ToKey)
  {
    forall p, q | Dashless(p) && Dashless(q) && Managed(p) && Managed(q) && ToKey(p) == ToKey(q)
      ensures SelectorOf(p) == SelectorOf(q) {
      ToKeyInjective(p, q);
    }
  }

  // ---------------------------------------------------------------- desired policies

  /** One remote entry, parsed: the tunnel endpoints, the overlay network and the host network. */
  datatype Target = Target(local: string, remote: string, net: string, direct: string)

  predicate DashlessTarget(t: Target) {
    '-' !in t.local && '-' !in t.remote && '-' !in t.net && '-' !in t.direct
  }

  function PoliciesFor(t: Target): (ps: seq<Policy>)
    ensures |ps| == 3
  {
    [Policy(Out, t.net, t.direct, [Tmpl(t.local, t.remote, REQ_ID, "esp tunnel")], 10000),
     Policy(In, t.direct, t.net, [Tmpl(t.remote, t.local, REQ_ID, "esp tunnel")], 10000),
     Policy(Fwd, t.direct, t.net, [Tmpl(t.remote, t.local, REQ_ID, "esp tunnel")], 10000)]
  }

  ghost predicate Wanted(ts: seq<Target>, p: Policy) {
    exists t :: t in ts && p in PoliciesFor(t)
  }

  /** The entries have pairwise different overlay addresses. */
  ghost predicate DistinctTargets(ts: seq<Target>) {
    forall i, j :: 0 <= i < j < |ts| ==> ts[i].direct != ts[j].direct
  }

  /** The overlay address is one side of the selector, and the direction tells which policy it is. */
  lemma DirectInSelector(t: Target, p: Policy)
    requires p in PoliciesFor(t)
    ensures t.direct == (if p.dir.Out? then p.dst else p.src)
    ensures p == PoliciesFor(t)[if p.dir.Out? then 0 else if p.dir.In? then 1 else 2]
  {
  }

  lemma WantedSelectorsDiffer(ts: seq<Target>, p: Policy, q: Policy)
    requires DistinctTargets(ts) && Wanted(ts, p) && Wanted(ts, q) && SelectorOf(p) == SelectorOf(q)
    ensures p == q
  {
    var t :| t in ts && p in PoliciesFor(t);
    var u :| u in ts && q in PoliciesFor(u);
    DirectInSelector(t, p);
    DirectInSelector(u, q);
    var i: nat :| i < |ts| && ts[i] == t;
    var j: nat :| j < |ts| && ts[j] == u;
    assert i == j;
  }

  // ---------------------------------------------------------------- the kernel

  ghost predicate WellKeyed(spd: Table) {
    forall s :: s in spd ==> SelectorOf(spd[s]) == s && Dashless(spd[s])
  }

  class Kernel {
    var spd: Table
    /** How many policies were requested to be deleted or added. */
    ghost var changes: nat

    method List() returns (ok: bool, policies: seq<Policy>)
      ensures ok ==> forall p :: p in policies <==> exists s :: s in spd && spd[s] == p
    {
      ok := *;
      policies := [];
      var rest := spd.Keys;
      while rest != {}
        invariant rest <= spd.Keys
        invariant forall p :: p in policies <==> exists s :: s in spd.Keys - rest && spd[s] == p
      {
        var s :| s in rest;
        rest := rest - {s};
        policies := policies + [spd[s]];
      }
    }

    /** Deletes by direction and selector. */
    method Delete(p: Policy) returns (ok: bool)
      modifies this
      ensures spd == if ok then old(spd) - {SelectorOf(p)} else old(spd)
      ensures changes == old(changes) + 1
      ensures ok ==> SelectorOf(p) in old(spd)
    {
      changes := changes + 1;
      ok := *;
      if SelectorOf(p) !in spd { ok := false; }
      if ok { spd := spd - {SelectorOf(p)}; }
    }

    /** Refuses a selector that is already present. */
    method Add(p: Policy) returns (ok: bool)
      modifies this
      ensures spd == if ok then old(spd)[SelectorOf(p) := p] else old(spd)
      ensures changes == old(changes) + 1
      ensures ok ==> SelectorOf(p) !in old(spd)
    {
      changes := changes + 1;
      ok := *;
      if SelectorOf(p) in spd { ok := false; }
      if ok { spd := spd[SelectorOf(p) := p]; }
    }
  }

  // ---------------------------------------------------------------- the reconciliation steps

  /** The map is the managed part of the table, indexed by toKey. */
  ghost predicate Indexes(key: KeyOf, m: Keyed, spd: Table) {
    && (forall s :: s in spd && Managed(spd[s]) ==> key(spd[s]) in m && m[key(spd[s])] == spd[s])
    && (forall k :: k in m ==>
      Managed(m[k]) && key(m[k]) == k && SelectorOf(m[k]) in spd && spd[SelectorOf(m[k])] == m[k])
  }

  method GetRules(key: KeyOf, kernel: Kernel) returns (ok: bool, policies: Keyed)
    requires Lawful(key) && WellKeyed(kernel.spd)
    ensures ok ==> Indexes(key, policies, kernel.spd)
    ensures !ok ==> policies == map[]
  {
    policies := map[];
    var existing;
    ok, existing := kernel.List();
    if !ok { return; }
    ghost var spd := kernel.spd;
    for i := 0 to |existing|
      invariant forall j :: 0 <= j < i && Managed(existing[j]) ==> key(existing[j]) in policies
      invariant forall k :: k in policies ==> policies[k] in existing && Managed(policies[k]) && key(policies[k]) == k
    {
      if Managed(existing[i]) { policies := policies[key(existing[i]) := existing[i]]; }
    }
    forall s | s in spd && Managed(spd[s]) ensures key(spd[s]) in policies && policies[key(spd[s])] == spd[s] {
      assert spd[s] in existing;
      var p := policies[key(spd[s])];
      var s' :| s' in spd && spd[s'] == p;
    }
  }

  function Keys(key: KeyOf, ps: seq<Policy>): set<string> {
    set i | 0 <= i < |ps| :: key(ps[i])
  }

  function AllKeys(key: KeyOf, ts: seq<Target>): set<string> {
    if ts == [] then {} else AllKeys(key, ts[..|ts| - 1]) + Keys(key, PoliciesFor(ts[|ts| - 1]))
  }

  lemma {:induction false} AllKeysAreWanted(key: KeyOf, ts: seq<Target>, k: string)
    ensures k in AllKeys(key, ts) <==> exists p :: Wanted(ts, p) && key(p) == k
  {
    if ts != [] {
      var front, last := ts[..|ts| - 1], ts[|ts| - 1];
      AllKeysAreWanted(key, front, k);
      assert ts == front + [last];
      assert forall p :: Wanted(ts, p) <==> Wanted(front, p) || p in PoliciesFor(last);
      assert k in Keys(key, PoliciesFor(last)) <==> exists p :: p in PoliciesFor(last) && key(p) == k;
    }
  }

  /** The policies still to add are wanted ones, each under its key. */
  ghost predicate Additions(key: KeyOf, ts: seq<Target>, existing: Keyed, toAdd: Keyed) {
    && (forall k :: k in toAdd ==> Wanted(ts, toAdd[k]) && key(toAdd[k]) == k)
    && (forall k :: k in AllKeys(key, ts) && k !in existing ==> k in toAdd)
    && (DistinctTargets(ts) && (forall t :: t in ts ==> DashlessTarget(t)) ==>
      toAdd.Keys == AllKeys(key, ts) - existing.Keys)
  }

  /** addRules for one more entry: its keys leave the deletion candidates, and those not
      already installed join the additions. */
  method AddRules(key: KeyOf, ghost ts: seq<Target>, ghost installed: Keyed, t: Target, existing: Keyed, toAdd: Keyed)
    returns (existing': Keyed, toAdd': Keyed)
    requires Lawful(key) && existing == installed - AllKeys(key, ts) && Additions(key, ts, installed, toAdd)
    ensures existing' == installed - AllKeys(key, ts + [t]) && Additions(key, ts + [t], installed, toAdd')
  {
    existing', toAdd' := existing, toAdd;
    var ps := PoliciesFor(t);
    for i := 0 to 3
      invariant (existing', toAdd') == PlaceAll(key, ps[..i], (existing, toAdd))
    {
      assert ps[..i + 1][..i] == ps[..i];
      var name := key(ps[i]);
      if name in existing' { existing' := existing' - {name}; } else { toAdd' := toAdd'[name := ps[i]]; }
    }
    assert ps[..3] == ps;
    AddRulesDone(key, ts, t, installed, toAdd);
  }

  function PlaceAll(key: KeyOf, ps: seq<Policy>, m: (Keyed, Keyed)): (Keyed, Keyed) {
    if ps == [] then m
    else
      var (existing, toAdd) := PlaceAll(key, ps[..|ps| - 1], m);
      var p := ps[|ps| - 1];
      if key(p) in existing then (existing - {key(p)}, toAdd) else (existing, toAdd[key(p) := p])
  }

  lemma {:induction false} PlacedExisting(key: KeyOf, ps: seq<Policy>, m: (Keyed, Keyed))
    ensures PlaceAll(key, ps, m).0 == m.0 - Keys(key, ps)
  {
    if ps == [] {
      assert m.0 - {} == m.0;
    } else {
      PlacedExisting(key, ps[..|ps| - 1], m);
      KeysOfLast(key, ps);
    }
  }

  lemma KeysOfLast(key: KeyOf, ps: seq<Policy>)
    requires ps != []
    ensures Keys(key, ps) == Keys(key, ps[..|ps| - 1]) + {key(ps[|ps| - 1])}
  {
    assert ps == ps[..|ps| - 1] + [ps[|ps| - 1]];
  }

  lemma {:induction false} PlacedValues(key: KeyOf, ps: seq<Policy>, m: (Keyed, Keyed), k: string)
    requires k in PlaceAll(key, ps, m).1
    ensures var p := PlaceAll(key, ps, m).1[k]; (k in m.1 && p == m.1[k]) || (p in ps && key(p) == k)
  {
    if ps != [] {
      var front := PlaceAll(key, ps[..|ps| - 1], m);
      if k in front.1 { PlacedValues(key, ps[..|ps| - 1], m, k); }
    }
  }

  lemma {:induction false} PlacedKeys(key: KeyOf, ps: seq<Policy>, m: (Keyed, Keyed))
    ensures m.1.Keys + (Keys(key, ps) - m.0.Keys) <= PlaceAll(key, ps, m).1.Keys
    ensures (forall i, j :: 0 <= i < j < |ps| ==> key(ps[i]) != key(ps[j])) ==>
      PlaceAll(key, ps, m).1.Keys == m.1.Keys + (Keys(key, ps) - m.0.Keys)
  {
    if ps != [] {
      var front, p := ps[..|ps| - 1], ps[|ps| - 1];
      PlacedKeys(key, front, m);
      PlacedExisting(key, front, m);
      KeysOfLast(key, ps);
      if forall i, j :: 0 <= i < j < |ps| ==> key(ps[i]) != key(ps[j]) {
        forall i | 0 <= i < |front| ensures key(front[i]) != key(p) { assert key(ps[i]) != key(ps[|ps| - 1]); }
        assert key(p) !in Keys(key, front);
      }
    }
  }

  lemma NewKeysAreFresh(key: KeyOf, ts: seq<Target>, t: Target)
    requires Lawful(key) && DistinctTargets(ts + [t]) && forall u :: u in ts + [t] ==> DashlessTarget(u)
    ensures Keys(key, PoliciesFor(t)) !! AllKeys(key, ts)
    ensures forall i, j :: 0 <= i < j < 3 ==> key(PoliciesFor(t)[i]) != key(PoliciesFor(t)[j])
  {
    var ps := PoliciesFor(t);
    assert (ts + [t])[|ts|] == t;
    forall k | k in Keys(key, ps) ensures k !in AllKeys(key, ts) {
      var i: nat :| i < 3 && key(ps[i]) == k;
      AllKeysAreWanted(key, ts, k);
      forall q | Wanted(ts, q) ensures key(q) != k { NewKeyIsFresh(key, ts, t, i, q); }
    }
    PoliciesAreDashless(t);
    assert SelectorOf(ps[0]) != SelectorOf(ps[1]) && SelectorOf(ps[0]) != SelectorOf(ps[2])
      && SelectorOf(ps[1]) != SelectorOf(ps[2]);
  }

  lemma PoliciesAreDashless(t: Target)
    requires DashlessTarget(t)
    ensures forall i :: 0 <= i < 3 ==> Dashless(PoliciesFor(t)[i]) && Managed(PoliciesFor(t)[i])
  {
  }

  lemma NewKeyIsFresh(key: KeyOf, ts: seq<Target>, t: Target, i: nat, q: Policy)
    requires Lawful(key) && DistinctTargets(ts + [t]) && forall u :: u in ts + [t] ==> DashlessTarget(u)
    requires i < 3 && Wanted(ts, q)
    ensures key(PoliciesFor(t)[i]) != key(q)
  {
    var us, p := ts + [t], PoliciesFor(t)[i];
    var u :| u in ts && q in PoliciesFor(u);
    var x: nat :| x < |ts| && ts[x] == u;
    assert us[x] == u && us[|ts|] == t && u.direct != t.direct;
    PoliciesAreDashless(t);
    PoliciesAreDashless(u);
    assert SelectorOf(q) != SelectorOf(p);
  }

  lemma PlacedAdditions(key: KeyOf, ps: seq<Policy>, installed: Keyed, done: set<string>, toAdd: Keyed)
    requires done - installed.Keys <= toAdd.Keys
    ensures var r := PlaceAll(key, ps, (installed - done, toAdd));
      && r.0 == installed - (done + Keys(key, ps))
      && (done + Keys(key, ps)) - installed.Keys <= r.1.Keys
      && ((forall i, j :: 0 <= i < j < |ps| ==> key(ps[i]) != key(ps[j])) && Keys(key, ps) !! done &&
          toAdd.Keys == done - installed.Keys
          ==> r.1.Keys == (done + Keys(key, ps)) - installed.Keys)
  {
    PlacedExisting(key, ps, (installed - done, toAdd));
    PlacedKeys(key, ps, (installed - done, toAdd));
  }

  lemma AddRulesDone(key: KeyOf, ts: seq<Target>, t: Target, installed: Keyed, toAdd: Keyed)
    requires Lawful(key) && Additions(key, ts, installed, toAdd)
    ensures var r := PlaceAll(key, PoliciesFor(t), (installed - AllKeys(key, ts), toAdd));
      r.0 == installed - AllKeys(key, ts + [t]) && Additions(key, ts + [t], installed, r.1)
  {
    var ps, us := PoliciesFor(t), ts + [t];
    var r := PlaceAll(key, ps, (installed - AllKeys(key, ts), toAdd));
    PlacedAdditions(key, ps, installed, AllKeys(key, ts), toAdd);
    assert AllKeys(key, us) == AllKeys(key, ts) + Keys(key, ps) by { assert us[..|ts|] == ts && us[|ts|] == t; }
    forall k | k in r.1 ensures Wanted(us, r.1[k]) && key(r.1[k]) == k {
      PlacedValues(key, ps, (installed - AllKeys(key, ts), toAdd), k);
      if k in toAdd && r.1[k] == toAdd[k] {
        var u :| u in ts && r.1[k] in PoliciesFor(u);
        assert u in us;
      } else {
        assert t in us;
      }
    }
    if DistinctTargets(us) && (forall u :: u in us ==> DashlessTarget(u)) {
      NewKeysAreFresh(key, ts, t);
      assert DistinctTargets(ts) by { assert forall i :: 0 <= i < |ts| ==> us[i] == ts[i]; }
      assert forall u :: u in ts ==> u in us;
    }
  }

  ghost function Selectors(m: Keyed): set<Selector> {
    set k | k in m :: SelectorOf(m[k])
  }

  /** Deletion goes on after a failure; without one, exactly the given selectors are gone. */
  method DeletePolicies(kernel: Kernel, policies: Keyed) returns (ok: bool)
    modifies kernel
    ensures ok ==> kernel.spd == old(kernel.spd) - Selectors(policies)
    ensures policies == map[] ==> ok && kernel.changes == old(kernel.changes)
    ensures WellKeyed(old(kernel.spd)) ==> WellKeyed(kernel.spd)
  {
    ok := true;
    ghost var done: set<Selector> := {};
    var rest := policies.Keys;
    while rest != {}
      invariant rest <= policies.Keys
      invariant done == set k | k in policies.Keys - rest :: SelectorOf(policies[k])
      invariant ok ==> kernel.spd == old(kernel.spd) - done
      invariant policies == map[] ==> ok && kernel.changes == old(kernel.changes)
      invariant WellKeyed(old(kernel.spd)) ==> WellKeyed(kernel.spd)
    {
      var k :| k in rest;
      rest := rest - {k};
      var deleted := kernel.Delete(policies[k]);
      if !deleted { ok := false; }
      done := done + {SelectorOf(policies[k])};
    }
    assert done == Selectors(policies);
  }

  /** Addition likewise; without a failure every given policy was new and is now in the table. */
  method AddPolicies(kernel: Kernel, policies: Keyed) returns (ok: bool)
    modifies kernel
    ensures ok ==> kernel.spd.Keys == old(kernel.spd).Keys + Selectors(policies)
    ensures ok ==> old(kernel.spd).Keys !! Selectors(policies)
    ensures ok ==> forall s :: s in old(kernel.spd) ==> kernel.spd[s] == old(kernel.spd)[s]
    ensures ok ==> forall k :: k in policies ==> kernel.spd[SelectorOf(policies[k])] == policies[k]
    ensures policies == map[] ==> kernel.changes == old(kernel.changes)
    ensures WellKeyed(old(kernel.spd)) && (forall k :: k in policies ==> Dashless(policies[k])) ==>
      WellKeyed(kernel.spd)
  {
    ok := true;
    ghost var done: set<Selector> := {};
    var rest := policies.Keys;
    while rest != {}
      invariant rest <= policies.Keys
      invariant done == set k | k in policies.Keys - rest :: SelectorOf(policies[k])
      invariant ok ==> kernel.spd.Keys == old(kernel.spd).Keys + done && old(kernel.spd).Keys !! done
      invariant ok ==> forall s :: s in old(kernel.spd) ==> kernel.spd[s] == old(kernel.spd)[s]
      invariant ok ==> forall k :: k in policies.Keys - rest ==> kernel.spd[SelectorOf(policies[k])] == policies[k]
      invariant policies == map[] ==> kernel.changes == old(kernel.changes)
      invariant WellKeyed(old(kernel.spd)) && (forall k :: k in policies ==> Dashless(policies[k])) ==>
        WellKeyed(kernel.spd)
    {
      var k :| k in rest;
      rest := rest - {k};
      var added := kernel.Add(policies[k]);
      if !added { ok := false; }
      done := done + {SelectorOf(policies[k])};
    }
    assert done == Selectors(policies);
  }

  // ---------------------------------------------------------------- what reconciliation achieves

  /** The table's managed policies are the wanted three per entry, up to the fields of toKey. */
  ghost predicate Reconciled(key: KeyOf, ts: seq<Target>, spd: Table) {
    && (forall s :: s in spd && Managed(spd[s]) ==> exists p :: Wanted(ts, p) && key(spd[s]) == key(p))
    && (forall p :: Wanted(ts, p) ==> SelectorOf(p) in spd && key(spd[SelectorOf(p)]) == key(p))
  }

  /** A managed policy that is not a leftover sits under the selector of a wanted policy. */
  lemma RetainedIsWanted(key: KeyOf, ts: seq<Target>, spd: Table, installed: Keyed, s: Selector) returns (q: Policy)
    requires Lawful(key) && WellKeyed(spd) && Indexes(key, installed, spd) && forall t :: t in ts ==> DashlessTarget(t)
    requires s in spd - Selectors(installed - AllKeys(key, ts)) && Managed(spd[s])
    ensures Wanted(ts, q) && key(q) == key(spd[s]) && SelectorOf(q) == s
  {
    var name := key(spd[s]);
    var leftovers := installed - AllKeys(key, ts);
    assert forall k :: k in leftovers ==> SelectorOf(leftovers[k]) in Selectors(leftovers);
    assert installed[name] == spd[s] && name !in leftovers;
    AllKeysAreWanted(key, ts, name);
    q :| Wanted(ts, q) && key(q) == name;
    WantedIsDashless(ts, q);
  }

  /** After the leftovers are deleted no addition meets an occupied selector. */
  lemma AdditionsNeverCollide(key: KeyOf, ts: seq<Target>, spd: Table, installed: Keyed, toAdd: Keyed)
    requires Lawful(key) && WellKeyed(spd) && Indexes(key, installed, spd) && Additions(key, ts, installed, toAdd)
    requires DistinctTargets(ts) && forall t :: t in ts ==> DashlessTarget(t)
    ensures (spd - Selectors(installed - AllKeys(key, ts))).Keys !! Selectors(toAdd)
  {
    var left := spd - Selectors(installed - AllKeys(key, ts));
    forall k, s | k in toAdd && s in left ensures SelectorOf(toAdd[k]) != s {
      WantedIsDashless(ts, toAdd[k]);
      if Managed(spd[s]) {
        var q := RetainedIsWanted(key, ts, spd, installed, s);
        if SelectorOf(toAdd[k]) == s { WantedSelectorsDiffer(ts, toAdd[k], q); }
      }
    }
  }

  lemma WantedIsDashless(ts: seq<Target>, p: Policy)
    requires Wanted(ts, p) && forall t :: t in ts ==> DashlessTarget(t)
    ensures Dashless(p) && Managed(p)
  {
    var t :| t in ts && p in PoliciesFor(t);
  }

  /** The table after deleting the leftovers and adding the additions without an error. */
  ghost predicate Applied(key: KeyOf, ts: seq<Target>, spd: Table, installed: Keyed, toAdd: Keyed, final: Table) {
    var left := spd - Selectors(installed - AllKeys(key, ts));
    && final.Keys == left.Keys + Selectors(toAdd)
    && (forall s :: s in left ==> final[s] == left[s])
    && (forall k :: k in toAdd ==> final[SelectorOf(toAdd[k])] == toAdd[k])
  }

  /** Nothing already present under its key is deleted or re-added, and sockets' policies stay. */
  lemma ReconciliationKeeps(key: KeyOf, ts: seq<Target>, spd: Table, installed: Keyed, toAdd: Keyed, final: Table,
                            s: Selector)
    requires Lawful(key) && WellKeyed(spd) && Indexes(key, installed, spd)
      && Applied(key, ts, spd, installed, toAdd, final)
    requires Additions(key, ts, installed, toAdd) && DistinctTargets(ts) && forall t :: t in ts ==> DashlessTarget(t)
    requires s in spd && (!Managed(spd[s]) || key(spd[s]) in AllKeys(key, ts))
    ensures s in final && final[s] == spd[s]
    ensures key(spd[s]) !in toAdd || !Managed(spd[s])
  {
    var leftovers := installed - AllKeys(key, ts);
    forall k | k in leftovers ensures SelectorOf(leftovers[k]) != s {
      assert spd[SelectorOf(leftovers[k])] == leftovers[k];
    }
  }

  /** Sockets' policies, and those already present under a wanted key, are in the table as before. */
  ghost predicate Undisturbed(key: KeyOf, ts: seq<Target>, spd: Table, final: Table) {
    forall s :: s in spd && (!Managed(spd[s]) || key(spd[s]) in AllKeys(key, ts)) ==> s in final && final[s] == spd[s]
  }

  lemma ReconciliationDisturbsNothing(key: KeyOf, ts: seq<Target>, spd: Table, installed: Keyed, toAdd: Keyed,
                                      final: Table)
    requires Lawful(key) && WellKeyed(spd) && Indexes(key, installed, spd)
      && Applied(key, ts, spd, installed, toAdd, final)
    requires Additions(key, ts, installed, toAdd) && DistinctTargets(ts) && forall t :: t in ts ==> DashlessTarget(t)
    ensures Undisturbed(key, ts, spd, final)
  {
    forall s | s in spd && (!Managed(spd[s]) || key(spd[s]) in AllKeys(key, ts))
      ensures s in final && final[s] == spd[s] {
      ReconciliationKeeps(key, ts, spd, installed, toAdd, final, s);
    }
  }

  /** Error-free reconciliation leaves the managed policies exactly the wanted ones. */
  lemma ReconciliationIsExact(key: KeyOf, ts: seq<Target>, spd: Table, installed: Keyed, toAdd: Keyed, final: Table)
    requires Lawful(key) && WellKeyed(spd) && Indexes(key, installed, spd)
      && Applied(key, ts, spd, installed, toAdd, final)
    requires Additions(key, ts, installed, toAdd) && DistinctTargets(ts) && forall t :: t in ts ==> DashlessTarget(t)
    ensures Reconciled(key, ts, final)
  {
    var left := spd - Selectors(installed - AllKeys(key, ts));
    forall s | s in final && Managed(final[s]) ensures exists p :: Wanted(ts, p) && key(final[s]) == key(p) {
      if s in left {
        var q := RetainedIsWanted(key, ts, spd, installed, s);
      } else {
        var k :| k in toAdd && SelectorOf(toAdd[k]) == s;
      }
    }
    forall p | Wanted(ts, p) ensures SelectorOf(p) in final && key(final[SelectorOf(p)]) == key(p) {
      var name := key(p);
      AllKeysAreWanted(key, ts, name);
      WantedIsDashless(ts, p);
      if name in installed {
        ReconciliationKeeps(key, ts, spd, installed, toAdd, final, SelectorOf(installed[name]));
        assert Dashless(installed[name]);
      } else {
        assert name in toAdd;
        WantedIsDashless(ts, toAdd[name]);
      }
    }
  }

  lemma NoLeftovers(key: KeyOf, ts: seq<Target>, spd: Table, installed: Keyed)
    requires Indexes(key, installed, spd) && Reconciled(key, ts, spd)
    ensures installed - AllKeys(key, ts) == map[]
  {
    forall k | k in installed ensures k in AllKeys(key, ts) {
      assert key(spd[SelectorOf(installed[k])]) == k;
      AllKeysAreWanted(key, ts, k);
    }
  }

  lemma WantedIsInstalled(key: KeyOf, ts: seq<Target>, spd: Table, installed: Keyed, k: string)
    requires WellKeyed(spd) && Indexes(key, installed, spd) && Reconciled(key, ts, spd) && k in AllKeys(key, ts)
    requires forall t :: t in ts ==> DashlessTarget(t)
    ensures k in installed
  {
    AllKeysAreWanted(key, ts, k);
    var p :| Wanted(ts, p) && key(p) == k;
    WantedIsDashless(ts, p);
    assert Managed(spd[SelectorOf(p)]);
  }

  /** Over a reconciled table no leftover and no addition remains. */
  lemma NothingToReconcile(key: KeyOf, ts: seq<Target>, spd: Table, installed: Keyed, toAdd: Keyed)
    requires WellKeyed(spd) && Indexes(key, installed, spd) && Additions(key, ts, installed, toAdd)
    requires DistinctTargets(ts) && forall t :: t in ts ==> DashlessTarget(t)
    requires Reconciled(key, ts, spd)
    ensures installed - AllKeys(key, ts) == map[] && toAdd == map[]
  {
    NoLeftovers(key, ts, spd, installed);
    forall k | k in AllKeys(key, ts) ensures k in installed { WantedIsInstalled(key, ts, spd, installed, k); }
    assert toAdd.Keys == {};
  }

  // ---------------------------------------------------------------- the table in its own fields

  /** The selector's policy starts its tunnel at src and ends it at dst, with request id 1234. */
  ghost predicate HasTunnel(spd: Table, s: Selector, src: string, dst: string) {
    && s in spd && spd[s].tmpls != []
    && spd[s].tmpls[0].src == src && spd[s].tmpls[0].dst == dst && spd[s].tmpls[0].reqId == 1234
  }

  /** The tunnels of one remote entry: out from this host to the entry's address through its host,
      in and forwarded from the address by the way back. */
  predicate Role(t: Target, s: Selector, src: string, dst: string) {
    || (s == Selector(Out, t.net, t.direct) && src == t.local && dst == t.remote)
    || (s == Selector(In, t.direct, t.net) && src == t.remote && dst == t.local)
    || (s == Selector(Fwd, t.direct, t.net) && src == t.remote && dst == t.local)
  }

  /** Some target's tunnel under the selector runs from src to dst. */
  ghost predicate Tunnel(ts: seq<Target>, s: Selector, src: string, dst: string) {
    exists t :: t in ts && Role(t, s, src, dst)
  }

  /** The table holds exactly the tunnels of the targets, besides sockets' policies. */
  ghost predicate TunnelsOf(ts: seq<Target>, spd: Table) {
    && (forall s, src, dst :: Tunnel(ts, s, src, dst) ==> HasTunnel(spd, s, src, dst))
    && (forall s :: s in spd && !s.dir.Socket? ==> exists src, dst :: Tunnel(ts, s, src, dst))
  }

  /** The policy that plays a role. */
  lemma RoleOfPolicy(t: Target, s: Selector, src: string, dst: string) returns (p: Policy)
    requires Role(t, s, src, dst)
    ensures p in PoliciesFor(t) && SelectorOf(p) == s && |p.tmpls| == 1
    ensures p.tmpls[0].src == src && p.tmpls[0].dst == dst && p.tmpls[0].reqId == 1234
  {
    p := PoliciesFor(t)[if s.dir.Out? then 0 else if s.dir.In? then 1 else 2];
  }

  lemma PolicyOfRole(t: Target, p: Policy) returns (src: string, dst: string)
    requires p in PoliciesFor(t)
    ensures Role(t, SelectorOf(p), src, dst)
    ensures p.priority == 10000 && p.tmpls == [Tmpl(src, dst, 1234, "esp tunnel")]
  {
    src, dst := p.tmpls[0].src, p.tmpls[0].dst;
  }

  /** Equal selectors and first templates mean equal keys. */
  lemma ToKeyDetermined(p: Policy, q: Policy)
    requires SelectorOf(p) == SelectorOf(q) && p.tmpls != [] && q.tmpls != []
    requires p.tmpls[0].(other := "") == q.tmpls[0].(other := "")
    ensures ToKey(p) == ToKey(q)
  {
    assert KeyFields(p) == KeyFields(q);
  }

  /** Reconciled means: exactly the tunnels of the targets. */
  lemma ReconciledMeansTunnels(ts: seq<Target>, spd: Table)
    requires WellKeyed(spd) && forall t :: t in ts ==> DashlessTarget(t)
    ensures Reconciled(ToKey, ts, spd) <==> TunnelsOf(ts, spd)
  {
    if Reconciled(ToKey, ts, spd) {
      forall s, src, dst | Tunnel(ts, s, src, dst) ensures HasTunnel(spd, s, src, dst) {
        var t :| t in ts && Role(t, s, src, dst);
        ReconciledHasTunnel(ts, spd, t, s, src, dst);
      }
      forall s | s in spd && !s.dir.Socket? ensures exists src, dst :: Tunnel(ts, s, src, dst) {
        ReconciledHasRole(ts, spd, s);
      }
    }
    if TunnelsOf(ts, spd) {
      forall p | Wanted(ts, p) ensures SelectorOf(p) in spd && ToKey(spd[SelectorOf(p)]) == ToKey(p) {
        TunnelIsWanted(ts, spd, p);
      }
      forall s | s in spd && Managed(spd[s]) ensures exists p :: Wanted(ts, p) && ToKey(spd[s]) == ToKey(p) {
        var src, dst :| Tunnel(ts, s, src, dst);
        var t :| t in ts && Role(t, s, src, dst);
        var p := RoleOfPolicy(t, s, src, dst);
        assert Wanted(ts, p);
        TunnelIsWanted(ts, spd, p);
      }
    }
  }

  lemma ReconciledHasTunnel(ts: seq<Target>, spd: Table, t: Target, s: Selector, src: string, dst: string)
    requires WellKeyed(spd) && (forall t :: t in ts ==> DashlessTarget(t)) && Reconciled(ToKey, ts, spd)
    requires t in ts && Role(t, s, src, dst)
    ensures HasTunnel(spd, s, src, dst)
  {
    var p := RoleOfPolicy(t, s, src, dst);
    assert Wanted(ts, p);
    WantedIsDashless(ts, p);
    ToKeyInjective(p, spd[s]);
  }

  lemma ReconciledHasRole(ts: seq<Target>, spd: Table, s: Selector)
    requires WellKeyed(spd) && (forall t :: t in ts ==> DashlessTarget(t)) && Reconciled(ToKey, ts, spd)
    requires s in spd && !s.dir.Socket?
    ensures exists src, dst :: Tunnel(ts, s, src, dst)
  {
    assert Managed(spd[s]);
    var p :| Wanted(ts, p) && ToKey(spd[s]) == ToKey(p);
    WantedIsDashless(ts, p);
    ToKeyInjective(p, spd[s]);
    var t :| t in ts && p in PoliciesFor(t);
    var src, dst := PolicyOfRole(t, p);
    assert Tunnel(ts, s, src, dst);
  }

  lemma TunnelIsWanted(ts: seq<Target>, spd: Table, p: Policy)
    requires WellKeyed(spd) && TunnelsOf(ts, spd) && Wanted(ts, p)
    ensures SelectorOf(p) in spd && ToKey(spd[SelectorOf(p)]) == ToKey(p)
  {
    var t :| t in ts && p in PoliciesFor(t);
    var src, dst := PolicyOfRole(t, p);
    assert Tunnel(ts, SelectorOf(p), src, dst) && HasTunnel(spd, SelectorOf(p), src, dst);
    ToKeyDetermined(spd[SelectorOf(p)], p);
  }

  /** Sockets' policies and tunnels that were already right are the same policies afterwards. */
  ghost predicate TunnelsKept(ts: seq<Target>, spd: Table, final: Table) {
    && (forall s :: s in spd && s.dir.Socket? ==> s in final && final[s] == spd[s])
    && (forall s, src, dst :: Tunnel(ts, s, src, dst) && HasTunnel(spd, s, src, dst) ==>
      s in final && final[s] == spd[s])
  }

  lemma UndisturbedKeepsTunnels(ts: seq<Target>, spd: Table, final: Table)
    requires WellKeyed(spd) && Undisturbed(ToKey, ts, spd, final)
    ensures TunnelsKept(ts, spd, final)
  {
    forall s, src, dst | Tunnel(ts, s, src, dst) && HasTunnel(spd, s, src, dst)
      ensures s in final && final[s] == spd[s]
    {
      var t :| t in ts && Role(t, s, src, dst);
      var p := RoleOfPolicy(t, s, src, dst);
      assert Wanted(ts, p);
      ToKeyDetermined(spd[s], p);
      AllKeysAreWanted(ToKey, ts, ToKey(p));
    }
  }

  /** What was not in the table before is an ESP tunnel of priority 10000. */
  ghost predicate NewAreTunnels(spd: Table, final: Table) {
    forall s :: s in final && !(s in spd && final[s] == spd[s]) ==>
      && final[s].priority == 10000 && |final[s].tmpls| == 1 && final[s].tmpls[0].other == "esp tunnel"
  }

  lemma AppliedAddsTunnels(key: KeyOf, ts: seq<Target>, spd: Table, installed: Keyed, toAdd: Keyed, final: Table)
    requires Applied(key, ts, spd, installed, toAdd, final) && Additions(key, ts, installed, toAdd)
    ensures NewAreTunnels(spd, final)
  {
    var left := spd - Selectors(installed - AllKeys(key, ts));
    forall s | s in final && !(s in spd && final[s] == spd[s])
      ensures final[s].priority == 10000 && |final[s].tmpls| == 1 && final[s].tmpls[0].other == "esp tunnel"
    {
      assert s in Selectors(toAdd);
      var k :| k in toAdd && SelectorOf(toAdd[k]) == s;
      var t :| t in ts && toAdd[k] in PoliciesFor(t);
      var src, dst := PolicyOfRole(t, toAdd[k]);
    }
  }
}
