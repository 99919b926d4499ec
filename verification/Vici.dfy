/** charon as the overlay sees it through VICI: the connections it holds and its IKE SAs.
    Every request may fail; the model leaves all outcomes open. */
module Vici {
  import opened Text

  datatype ChildSa = ChildSa(name: string, reqid: string, state: string, bytesIn: string, bytesOut: string)

  /** One entry of list-sas, with the connection name it is listed under. The listing and the
      children are sequences: the order in which Go walks its maps is any order. */
  datatype IkeSa = IkeSa(name: string, uniqueId: string, state: string, localHost: string, remoteHost: string,
                         localId: string, remoteId: string, established: string,
                         tasksActive: seq<string>, tasksQueued: seq<string>, children: seq<ChildSa>)

  const REQ_ID := "1234"

  /** charon gives every SA its own unique id. */
  ghost predicate DistinctIds(sas: seq<IkeSa>) {
    forall i, j :: 0 <= i < j < |sas| ==> sas[i].uniqueId != sas[j].uniqueId
  }

  /** ParseUint(id, 10, 32), nonzero: an id that terminate can address. */
  predicate UsableId(id: string) {
    var r := ParseUint(id, 0x1_0000_0000);
    r.Some? && r.value > 0
  }

  function Survivors(sas: seq<IkeSa>, killed: set<string>): (r: seq<IkeSa>)
    ensures forall sa :: sa in r <==> sa in sas && sa.uniqueId !in killed
  {
    if sas == [] then []
    else
      var front := Survivors(sas[..|sas| - 1], killed);
      var last := sas[|sas| - 1];
      assert sas == sas[..|sas| - 1] + [last];
      if last.uniqueId in killed then front else front + [last]
  }

  lemma {:induction false} SurvivorsCompose(sas: seq<IkeSa>, first: set<string>, second: set<string>)
    ensures Survivors(Survivors(sas, first), second) == Survivors(sas, first + second)
  {
    if sas != [] {
      var last := sas[|sas| - 1];
      var front := Survivors(sas[..|sas| - 1], first);
      SurvivorsCompose(sas[..|sas| - 1], first, second);
      if last.uniqueId !in first { assert (front + [last])[..|front|] == front; }
    }
  }

  lemma {:induction false} SurvivorsOfNone(sas: seq<IkeSa>)
    ensures Survivors(sas, {}) == sas
  {
    if sas != [] { SurvivorsOfNone(sas[..|sas| - 1]); }
  }

  /** The reply to a request: no answer at all, or the response's two deciding fields. */
  datatype Reply = NoAnswer | Answer(success: string, matches: string)

  class Charon<Conf> {
    var sas: seq<IkeSa>
    var conns: map<string, Conf>
    /** How many connections were requested to be loaded or unloaded. */
    ghost var changes: nat

    method ListSas() returns (ok: bool, listing: seq<IkeSa>)
      ensures ok ==> listing == sas
    {
      ok := *;
      listing := sas;
    }

    method ListConns() returns (ok: bool, names: set<string>)
      ensures ok ==> names == conns.Keys
    {
      ok := *;
      names := conns.Keys;
    }

    /** load-conn replaces the named connection or leaves the configuration alone. */
    method LoadConn(name: string, conf: Conf) returns (ok: bool)
      modifies this`conns, this`changes
      ensures changes == old(changes) + 1
      ensures conns == if ok then old(conns)[name := conf] else old(conns)
    {
      changes := changes + 1;
      ok := *;
      if ok { conns := conns[name := conf]; }
    }

    method UnloadConn(name: string) returns (ok: bool)
      modifies this`conns, this`changes
      ensures changes == old(changes) + 1
      ensures conns == if ok then old(conns) - {name} else old(conns)
    {
      changes := changes + 1;
      ok := *;
      if ok { conns := conns - {name}; }
    }

    /** Killing charon, which may fail, takes all its connections and SAs. */
    method Kill()
      modifies this`sas, this`conns
      ensures (sas == old(sas) && conns == old(conns)) || (sas == [] && conns == map[])
    {
      var effect: bool := *;
      if effect { sas, conns := [], map[]; }
    }

    /** A forced terminate by id. It touches no other SA; after success, or when charon
        reports no match, no SA has the id; a request that fails may still have taken effect. */
    method Terminate(id: string) returns (reply: Reply)
      modifies this`sas
      ensures sas == old(sas) || sas == Survivors(old(sas), {id})
      ensures reply.Answer? && (reply.success == "yes" || reply.matches == "0") ==> sas == Survivors(old(sas), {id})
    {
      var effect: bool := *;
      var answered: bool := *;
      if effect {
        sas := Survivors(sas, {id});
        reply := if answered then Answer("yes", "1") else NoAnswer;
      } else if !(exists sa :: sa in sas && sa.uniqueId == id) {
        SurvivorsUnchanged(sas, id);
        reply := Answer("no", "0");
      } else {
        reply := if answered then Answer("no", "1") else NoAnswer;
      }
    }
  }

  lemma {:induction false} SurvivorsUnchanged(sas: seq<IkeSa>, id: string)
    requires !(exists sa :: sa in sas && sa.uniqueId == id)
    ensures Survivors(sas, {id}) == sas
  {
    if sas != [] {
      var front, last := sas[..|sas| - 1], sas[|sas| - 1];
      assert last in sas;
      SurvivorsUnchanged(front, id);
      assert Survivors(sas, {id}) == front + [last];
    }
  }

  /** terminateIKEID: an SA that is already gone counts as terminated. */
  method TerminateIkeId<Conf>(charon: Charon<Conf>, id: string) returns (ok: bool)
    modifies charon`sas
    ensures ok ==> charon.sas == Survivors(old(charon.sas), {id})
    ensures charon.sas == old(charon.sas) || charon.sas == Survivors(old(charon.sas), {id})
  {
    var reply := charon.Terminate(id);
    if reply.NoAnswer? { return false; }
    ok := reply.success == "yes" || reply.matches == "0";
  }

  /** The terminate loop of both reapers: ids in order, stopping at the first failure.
      Only SAs named in ids go, and after success none of them is left. */
  method TerminateAll<Conf>(charon: Charon<Conf>, ids: seq<string>) returns (ok: bool, ghost killed: set<string>)
    modifies charon`sas
    ensures charon.sas == Survivors(old(charon.sas), killed)
    ensures forall id :: id in killed ==> id in ids
    ensures ok ==> forall id :: id in ids ==> id in killed
  {
    killed := {};
    SurvivorsOfNone(charon.sas);
    for i := 0 to |ids|
      invariant charon.sas == Survivors(old(charon.sas), killed)
      invariant forall id :: id in killed ==> id in ids
      invariant forall id :: id in ids[..i] ==> id in killed
    {
      SurvivorsCompose(old(charon.sas), killed, {ids[i]});
      ghost var before := charon.sas;
      ok := TerminateIkeId(charon, ids[i]);
      if ok || charon.sas != before { killed := killed + {ids[i]}; }
      if !ok { return; }
    }
    ok := true;
  }
}
