/** Initiation scheduling: every scheduling call starts a worker for the hosts that are not
    already being initiated, and all workers share the set of hosts in progress. The module
    interleaves their steps in every possible way. */
module Initiation {
  import opened Text

  /** The hosts a worker still has to release, and whether it is initiating the first one. */
  datatype Worker = Worker(remaining: seq<string>, active: bool)

  datatype State = State(initiating: set<string>, workers: map<nat, Worker>, next: nat)

  datatype Step = Schedule(hosts: set<string>, targets: seq<string>) | Begin(w: nat) | Finish(w: nat)

  /** The targets of a scheduling call: the named hosts not in progress, sorted. */
  ghost predicate TargetsOf(initiating: set<string>, hosts: set<string>, targets: seq<string>) {
    && StrictlySorted(targets, s => s)
    && forall h :: h in targets <==> h in hosts && h != "" && h !in initiating
  }

  ghost predicate Next(s: State, step: Step, s': State) {
    match step
    case Schedule(hosts, targets) =>
      && TargetsOf(s.initiating, hosts, targets)
      && s' == if targets == [] then s
               else State(s.initiating + (set h | h in targets), s.workers[s.next := Worker(targets, false)],
                 s.next + 1)
    case Begin(w) =>
      && w in s.workers && s.workers[w].remaining != [] && !s.workers[w].active
      && s' == s.(workers := s.workers[w := s.workers[w].(active := true)])
    case Finish(w) =>
      && w in s.workers && s.workers[w].remaining != [] && s.workers[w].active
      && s' == s.(initiating := s.initiating - {s.workers[w].remaining[0]},
                  workers := s.workers[w := Worker(s.workers[w].remaining[1..], false)])
  }

  const INITIAL := State({}, map[], 0)

  ghost predicate IsRun(states: seq<State>, steps: seq<Step>) {
    && |states| == |steps| + 1 && states[0] == INITIAL
    && forall k :: 0 <= k < |steps| ==> Next(states[k], steps[k], states[k + 1])
  }

  /** `initiating` is the disjoint union of what the workers have left. */
  ghost predicate DisjointUnion(s: State) {
    && (forall w :: w in s.workers ==> w < s.next)
    && (forall w :: w in s.workers && s.workers[w].active ==> s.workers[w].remaining != [])
    && (forall h :: h in s.initiating <==> exists w :: w in s.workers && h in s.workers[w].remaining)
    && (forall w, i, j :: w in s.workers && 0 <= i < j < |s.workers[w].remaining| ==>
      s.workers[w].remaining[i] != s.workers[w].remaining[j])
    && (forall w, v, h :: w in s.workers && v in s.workers ==>
      h in s.workers[w].remaining && h in s.workers[v].remaining ==> w == v)
  }

  lemma ScheduleKeepsUnion(s: State, hosts: set<string>, targets: seq<string>, s': State)
    requires DisjointUnion(s) && Next(s, Schedule(hosts, targets), s')
    ensures DisjointUnion(s')
  {
    if targets != [] {
      assert s.next !in s.workers;
      forall i, j | 0 <= i < j < |targets| ensures targets[i] != targets[j] { LessIrreflexive(targets[i]); }
      forall h ensures h in s'.initiating <==> exists w :: w in s'.workers && h in s'.workers[w].remaining {
        if h in targets { assert h in s'.workers[s.next].remaining; }
        if w :| w in s.workers && h in s.workers[w].remaining { assert h in s'.workers[w].remaining; }
      }
    }
  }

  lemma FinishKeepsUnion(s: State, w: nat, s': State)
    requires DisjointUnion(s) && Next(s, Finish(w), s')
    ensures DisjointUnion(s')
    ensures s.workers[w].remaining[0] !in s'.initiating
  {
    var old', new' := s.workers[w].remaining, s'.workers[w].remaining;
    var done := old'[0];
    assert old' == [done] + new';
    assert done !in new' by {
      forall i | 0 <= i < |new'| ensures new'[i] != done { assert old'[i + 1] == new'[i]; }
    }
    forall v | v in s'.workers
      ensures forall h :: h in s'.workers[v].remaining <==> h in s.workers[v].remaining && h != done {
      if v != w { assert done in old'; }
    }
    forall h ensures h in s'.initiating <==> exists v :: v in s'.workers && h in s'.workers[v].remaining {
      if v :| v in s.workers && h in s.workers[v].remaining && h != done { assert h in s'.workers[v].remaining; }
    }
    forall i, j | 0 <= i < j < |new'| ensures new'[i] != new'[j] { assert old'[i + 1] != old'[j + 1]; }
  }

  lemma BeginKeepsUnion(s: State, w: nat, s': State)
    requires DisjointUnion(s) && Next(s, Begin(w), s')
    ensures DisjointUnion(s')
  {
    assert forall v :: v in s'.workers ==> v in s.workers && s'.workers[v].remaining == s.workers[v].remaining;
    assert s'.workers.Keys == s.workers.Keys;
    forall h ensures h in s'.initiating <==> exists v :: v in s'.workers && h in s'.workers[v].remaining {
      if v :| v in s.workers && h in s.workers[v].remaining { assert h in s'.workers[v].remaining; }
    }
  }

  /** Every state of every interleaving keeps the disjoint union. */
  lemma {:induction false} RunsKeepUnion(states: seq<State>, steps: seq<Step>, k: nat)
    requires IsRun(states, steps) && k < |states|
    ensures DisjointUnion(states[k])
  {
    if k > 0 {
      RunsKeepUnion(states, steps, k - 1);
      var s, s' := states[k - 1], states[k];
      match steps[k - 1]
      case Schedule(hosts, targets) => ScheduleKeepsUnion(s, hosts, targets, s');
      case Begin(w) => BeginKeepsUnion(s, w, s');
      case Finish(w) => FinishKeepsUnion(s, w, s');
    }
  }

  /** No host is ever initiated by two workers at once. */
  lemma NoHostInitiatedTwice(states: seq<State>, steps: seq<Step>, k: nat, w: nat, v: nat)
    requires IsRun(states, steps) && k < |states|
    requires w in states[k].workers && v in states[k].workers && w != v
    requires states[k].workers[w].active && states[k].workers[v].active
    ensures states[k].workers[w].remaining != [] && states[k].workers[v].remaining != []
    ensures states[k].workers[w].remaining[0] != states[k].workers[v].remaining[0]
  {
    RunsKeepUnion(states, steps, k);
    var a := states[k].workers[w].remaining;
    assert a[0] in a;
  }

  predicate StepOf(step: Step, w: nat) {
    match step
    case Schedule(_, _) => false
    case Begin(v) => v == w
    case Finish(v) => v == w
  }

  /** A worker with hosts left is never blocked. */
  lemma WorkersNeverBlock(s: State, w: nat) returns (step: Step, s': State)
    requires w in s.workers && s.workers[w].remaining != []
    ensures StepOf(step, w) && Next(s, step, s')
  {
    if s.workers[w].active {
      step := Finish(w);
      s' := s.(initiating := s.initiating - {s.workers[w].remaining[0]},
        workers := s.workers[w := Worker(s.workers[w].remaining[1..], false)]);
    } else {
      step := Begin(w);
      s' := s.(workers := s.workers[w := s.workers[w].(active := true)]);
    }
  }

  /** How many of the steps m..n belong to worker w. */
  function Taken(steps: seq<Step>, m: nat, n: nat, w: nat): nat
    requires m <= n <= |steps|
    decreases n - m
  {
    if m == n then 0 else (if StepOf(steps[m], w) then 1 else 0) + Taken(steps, m + 1, n, w)
  }

  /** A marked host is released once its worker has taken twice as many steps as the host's
      place in its list, whatever the other workers and scheduling calls do meanwhile. */
  lemma {:induction false} MarkedHostIsReleased(states: seq<State>, steps: seq<Step>, m: nat, n: nat, w: nat, p: nat)
    returns (k: nat)
    requires IsRun(states, steps) && m <= n <= |steps|
    requires w in states[m].workers && p < |states[m].workers[w].remaining|
    requires Taken(steps, m, n, w) >= 2 * (p + 1) - if states[m].workers[w].active then 1 else 0
    ensures m < k <= n && states[m].workers[w].remaining[p] !in states[k].initiating
    decreases n - m
  {
    RunsKeepUnion(states, steps, m);
    var s, s' := states[m], states[m + 1];
    var host := s.workers[w].remaining[p];
    assert Next(s, steps[m], s');
    if steps[m] == Finish(w) {
      FinishKeepsUnion(s, w, s');
      if p == 0 { return m + 1; }
      assert s'.workers[w].remaining[p - 1] == host;
      k := MarkedHostIsReleased(states, steps, m + 1, n, w, p - 1);
    } else {
      assert w < s.next && s'.workers[w].remaining == s.workers[w].remaining;
      k := MarkedHostIsReleased(states, steps, m + 1, n, w, p);
    }
  }

  /** Every marked host belongs to some worker, so the release bound covers all of them. */
  lemma MarkedHostHasWorker(states: seq<State>, steps: seq<Step>, m: nat, host: string) returns (w: nat, p: nat)
    requires IsRun(states, steps) && m < |states| && host in states[m].initiating
    ensures w in states[m].workers && p < |states[m].workers[w].remaining| && states[m].workers[w].remaining[p] == host
  {
    RunsKeepUnion(states, steps, m);
    w :| w in states[m].workers && host in states[m].workers[w].remaining;
    p :| 0 <= p < |states[m].workers[w].remaining| && states[m].workers[w].remaining[p] == host;
  }
}
