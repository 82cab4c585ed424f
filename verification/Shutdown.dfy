/** Shutdown bookkeeping (`cleanup`): every tracked daemon is sent a
    termination request, killed if that did not finish it, and removed from
    the process table whatever `Exception` the attempts raised; then the
    network is stopped. A keyboard interrupt is not an `Exception`: one that
    arrives during the bounded wait ends the walk where it is. */
module Shutdown {
  import opened Topology

  /** A tracked daemon process. */
  type Handle = nat

  /** What happened to one process: whether the termination request and the
      bounded wait succeeded, and, if not, whether the kill succeeded; or
      whether a keyboard interrupt arrived during the wait, which the
      `except Exception` clauses do not catch. */
  datatype Outcome = Outcome(terminated: bool, killed: bool, interrupted: bool)

  /** One entry of the table snapshot, with what happens when it is stopped. */
  datatype Step = Step(name: Node, outcome: Outcome)

  /** The attempts cleanup makes, in order. */
  datatype Action = Terminate(name: Node) | Kill(name: Node) | StopNetwork

  /** The table's keys in snapshot order. */
  function Names(steps: seq<Step>): seq<Node> {
    seq(|steps|, i requires 0 <= i < |steps| => steps[i].name)
  }

  /** The attempts made for one process. */
  function Attempts(st: Step): seq<Action> {
    [Terminate(st.name)] + (if st.outcome.terminated then [] else [Kill(st.name)])
  }

  /** Reference definition: the attempts for the processes in table order. */
  function CleanupLog(steps: seq<Step>): seq<Action>
    decreases |steps|
  {
    if |steps| == 0 then []
    else CleanupLog(steps[..|steps| - 1]) + Attempts(steps[|steps| - 1])
  }

  /** Every process gets a termination attempt, a kill is attempted exactly
      for the processes whose termination failed, and nothing else appears. */
  lemma {:induction false} CleanupLogMembership(steps: seq<Step>, a: Action)
    ensures a in CleanupLog(steps) <==>
      exists i :: 0 <= i < |steps| &&
        (a == Terminate(steps[i].name) || (a == Kill(steps[i].name) && !steps[i].outcome.terminated))
    decreases |steps|
  {
    if |steps| > 0 {
      var n := |steps| - 1;
      CleanupLogMembership(steps[..n], a);
      if a in CleanupLog(steps[..n]) {
        var i :| 0 <= i < n &&
          (a == Terminate(steps[..n][i].name) || (a == Kill(steps[..n][i].name) && !steps[..n][i].outcome.terminated));
        assert steps[i] == steps[..n][i];
      }
      if exists i :: 0 <= i < |steps| &&
          (a == Terminate(steps[i].name) || (a == Kill(steps[i].name) && !steps[i].outcome.terminated)) {
        var i :| 0 <= i < |steps| &&
          (a == Terminate(steps[i].name) || (a == Kill(steps[i].name) && !steps[i].outcome.terminated));
        if i < n {
          assert steps[..n][i] == steps[i];
        }
      }
    }
  }

  /** The kill's own outcome is swallowed: it never changes what cleanup does. */
  lemma {:induction false} KillOutcomeIrrelevant(steps: seq<Step>, steps': seq<Step>)
    requires |steps| == |steps'|
    requires forall i :: 0 <= i < |steps| ==>
      steps[i].name == steps'[i].name && steps[i].outcome.terminated == steps'[i].outcome.terminated
    ensures CleanupLog(steps) == CleanupLog(steps')
    decreases |steps|
  {
    if |steps| > 0 {
      var n := |steps| - 1;
      KillOutcomeIrrelevant(steps[..n], steps'[..n]);
    }
  }

  /** Where the walk stops: the first interrupted entry, or the end of the
      snapshot when no interrupt arrives. */
  function StopsAt(steps: seq<Step>): (p: nat)
    ensures p <= |steps|
    ensures forall i :: 0 <= i < p ==> !steps[i].outcome.interrupted
    ensures p < |steps| ==> steps[p].outcome.interrupted
    decreases |steps|
  {
    if |steps| == 0 || steps[0].outcome.interrupted then 0 else 1 + StopsAt(steps[1..])
  }

  /** Whether no interrupt arrives during the walk. */
  predicate Completes(steps: seq<Step>) {
    forall i :: 0 <= i < |steps| ==> !steps[i].outcome.interrupted
  }

  /** A snapshot of a dictionary's items lists every key once. */
  predicate DistinctNames(steps: seq<Step>) {
    var ns := Names(steps);
    forall i, j :: 0 <= i < j < |ns| ==> ns[i] != ns[j]
  }

  /** What cleanup leaves behind: the process table, the attempts made, and
      whether an interrupt escaped from the walk. */
  datatype Report = Report(remaining: map<Node, Handle>, log: seq<Action>, interrupted: bool)

  /** With distinct names, the entries not yet visited are exactly those
      whose names lie in the rest of the snapshot. */
  lemma {:induction false} Unvisited(procs: map<Node, Handle>, steps: seq<Step>, p: nat, n: Node)
    requires forall m :: m in procs <==> m in Names(steps)
    requires DistinctNames(steps) && p <= |steps|
    ensures n in procs && n !in Names(steps[..p]) <==> n in Names(steps[p..])
  {
    if n in Names(steps[p..]) {
      var j :| 0 <= j < |steps[p..]| && Names(steps[p..])[j] == n;
      assert Names(steps)[p + j] == n;
      forall i | 0 <= i < p
        ensures Names(steps[..p])[i] != n
      {
        assert Names(steps)[i] != Names(steps)[p + j];
      }
    }
    if n in procs && n !in Names(steps[..p]) {
      var j :| 0 <= j < |steps| && Names(steps)[j] == n;
      forall i | 0 <= i < p
        ensures Names(steps)[i] != n
      {
        assert Names(steps)[i] == Names(steps[..p])[i];
      }
      assert Names(steps[p..])[j - p] == n;
    }
  }

  /** Walks a snapshot of the table in order (`steps` lists its keys). When
      no interrupt arrives the table ends empty and the network stop is
      attempted last; an interrupt during a wait leaves that entry and every
      later one in the table and skips the network stop. */
  method Cleanup(procs: map<Node, Handle>, steps: seq<Step>) returns (r: Report)
    requires forall n :: n in procs <==> n in Names(steps)
    requires DistinctNames(steps)
    ensures r.interrupted <==> !Completes(steps)
    ensures r.log == CleanupLog(steps[..StopsAt(steps)]) +
      (if r.interrupted then [Terminate(steps[StopsAt(steps)].name)] else [StopNetwork])
    ensures r.interrupted ==> StopNetwork !in r.log
    ensures forall n :: n in r.remaining <==> n in Names(steps[StopsAt(steps)..])
    ensures forall n :: n in r.remaining ==> n in procs && r.remaining[n] == procs[n]
    ensures !r.interrupted ==> r.remaining == map[] && r.log == CleanupLog(steps) + [StopNetwork]
  {
    var remaining: map<Node, Handle> := procs;
    var log: seq<Action> := [];
    var i: nat := 0;
    while i < |steps| && !steps[i].outcome.interrupted
      invariant i <= StopsAt(steps)
      invariant log == CleanupLog(steps[..i])
      invariant forall n :: n in remaining <==> n in procs && n !in Names(steps[..i])
      invariant forall n :: n in remaining ==> remaining[n] == procs[n]
    {
      var st := steps[i];
      assert steps[..i + 1][..i] == steps[..i];
      log := log + [Terminate(st.name)];
      if !st.outcome.terminated {
        log := log + [Kill(st.name)];
      }
      assert Names(steps[..i + 1]) == Names(steps[..i]) + [st.name];
      remaining := remaining - {st.name};
      i := i + 1;
    }
    if i == |steps| {
      assert steps[..i] == steps;
      assert Names(steps[i..]) == [];
      r := Report(remaining, log + [StopNetwork], false);
    } else {
      CleanupLogMembership(steps[..i], StopNetwork);
      forall n | true
        ensures n in remaining <==> n in Names(steps[i..])
      {
        Unvisited(procs, steps, i, n);
      }
      r := Report(remaining, log + [Terminate(steps[i].name)], true);
    }
  }

  /** Cleanup is idempotent: after a walk that completes, a second run finds
      an empty table, attempts nothing on processes and only stops the
      network again. */
  method CleanupTwice(procs: map<Node, Handle>, steps: seq<Step>) returns (second: Report)
    requires forall n :: n in procs <==> n in Names(steps)
    requires DistinctNames(steps) && Completes(steps)
    ensures second == Report(map[], [StopNetwork], false)
  {
    var first := Cleanup(procs, steps);
    second := Cleanup(first.remaining, []);
  }
}
