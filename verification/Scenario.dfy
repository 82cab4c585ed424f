/** The run as a two-state machine: STEADY after start-up linking, and
    SWITCHED after the one-shot handover, which is taken only when a
    positive handover delay is configured. The delay itself, the timer
    thread and the sleep are not modelled: the handover is one atomic step. */
module Scenario {
  import opened Topology
  import opened LinkStatus
  import opened Neighbor

  datatype Phase = Steady | Switched

  /** The observable state of a run: the link list, the current statuses and
      every neighbour command issued so far, in order. */
  datatype Emulation = Emulation(links: seq<Link>, phase: Phase, status: seq<Status>, issued: seq<Command>)

  predicate Consistent(e: Emulation) {
    |e.status| == |e.links|
  }

  /** Topology built, initial statuses applied, start-up neighbours linked. */
  function Start(s: Settings, port: int): (e: Emulation)
    ensures Consistent(e) && e.phase == Steady
    ensures e.links == DeclaredTopology(s)
    ensures SingleHomed(e.links, e.status)
    ensures e.issued == Selected(e.links, UpMask(e.status), port)
  {
    var links := DeclaredTopology(s);
    InitialSingleHomed(s);
    InitialLinkingIsUpLinks(links, port);
    Emulation(links, Steady, InitialStatus(links), InitialLinkCommands(links, port))
  }

  /** The handover step: swap the access links and re-link the alternates. */
  function TriggerHandover(e: Emulation, port: int): (e': Emulation)
    requires Consistent(e) && e.phase == Steady
    ensures Consistent(e') && e'.phase == Switched && e'.links == e.links
    ensures |e'.issued| >= |e.issued| && e'.issued[..|e.issued|] == e.issued
    ensures forall k :: 0 <= k < |e.links| ==>
      e'.status[k] == (if IsOriginal(e.links[k]) then Down
                       else if IsAlternate(e.links[k]) then Up
                       else e.status[k])
  {
    Emulation(e.links, Switched, Handover(e.links, e.status), e.issued + HandoverLinkCommands(e.links, port))
  }

  /** A whole run that outlives the handover delay: the handover is
      scheduled iff `handoverAfter > 0`, and then taken as one atomic step. */
  function Run(s: Settings, port: int, handoverAfter: real): (e: Emulation)
    ensures Consistent(e)
    ensures e.phase == Switched <==> handoverAfter > 0.0
  {
    var e0 := Start(s, port);
    if handoverAfter > 0.0 then TriggerHandover(e0, port) else e0
  }

  /** Whatever the settings, the port and the delay, every ground node is
      single-homed at the end of a run; a handover leaves the backbone links
      as they were and adds to the start-up commands exactly the commands of
      the links it brought from down to up. */
  lemma RunInvariant(s: Settings, port: int, handoverAfter: real)
    ensures var e := Run(s, port, handoverAfter);
      && SingleHomed(e.links, e.status)
      && e.status[0] == Up && e.status[1] == Up
    ensures var e0 := Start(s, port);
      var e := Run(s, port, handoverAfter);
      handoverAfter > 0.0 ==>
        e.issued == e0.issued + Selected(e.links, NewlyUpMask(e0.status, e.status), port)
    ensures handoverAfter <= 0.0 ==> Run(s, port, handoverAfter) == Start(s, port)
  {
    var links := DeclaredTopology(s);
    InitialSingleHomed(s);
    if handoverAfter > 0.0 {
      HandoverSwapsAccess(s);
      HandoverLinkingIsNewlyUp(links, port);
    }
  }

  /** The end-to-end handover scenario: six links with the documented
      classes; g1-s2 and g2-s2 start down; after the handover they are up
      and g1-s1, g2-s3 are down; the only commands the handover adds are the
      four for g1-s2 and g2-s2. */
  lemma HandoverScenario(s: Settings, port: int)
    ensures var e0 := Start(s, port);
      var e := Run(s, port, 1.0);
      && DeclaredShape(e.links)
      && e0.status == [Up, Up, Up, Down, Down, Up]
      && e.status == [Up, Up, Down, Up, Up, Down]
      && e.issued == e0.issued + (LinkCommands(e.links[3], port) + LinkCommands(e.links[4], port))
  {
    var links := DeclaredTopology(s);
    ShapeHandoverStatus(links);
    ShapeInitialStatus(links);
    ShapeHandoverCommands(links, port);
  }
}
