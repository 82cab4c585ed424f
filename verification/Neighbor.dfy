/** Neighbour adjacency commands (`dv link-create`), issued for every
    selected link from both ends towards the peer's address on that link. */
module Neighbor {
  import opened Addressing
  import opened Topology
  import opened LinkStatus

  /** A neighbour endpoint `udp://<ip>:<port>`. */
  datatype Uri = Udp(ip: Ipv4, port: int)

  /** `dv link-create <target>` run on node `on`. Failures are swallowed by
      the launcher, so a command is only recorded as issued. */
  datatype Command = LinkCreate(on: Node, target: Uri)

  /** The two commands for one link: a towards b's address, b towards a's. */
  function LinkCommands(l: Link, port: int): seq<Command> {
    [LinkCreate(l.a, Udp(l.bIp, port)), LinkCreate(l.b, Udp(l.aIp, port))]
  }

  /** How many links a mask selects. */
  function CountSelected(mask: seq<bool>): nat {
    if |mask| == 0 then 0 else (if mask[0] then 1 else 0) + CountSelected(mask[1..])
  }

  /** Reference definition: the commands for the links a mask selects,
      in link order. */
  function Selected(links: seq<Link>, mask: seq<bool>, port: int): seq<Command>
    requires |mask| == |links|
    decreases |links|
  {
    if |links| == 0 then []
    else (if mask[0] then LinkCommands(links[0], port) else []) + Selected(links[1..], mask[1..], port)
  }

  /** Two commands are issued per selected link, and no others. */
  lemma {:induction false} SelectedLength(links: seq<Link>, mask: seq<bool>, port: int)
    requires |mask| == |links|
    ensures |Selected(links, mask, port)| == 2 * CountSelected(mask)
    decreases |links|
  {
    if |links| > 0 {
      SelectedLength(links[1..], mask[1..], port);
    }
  }

  /** A command is selected exactly when it is one of the two commands of a
      selected link. */
  lemma {:induction false} SelectedMembership(links: seq<Link>, mask: seq<bool>, port: int, c: Command)
    requires |mask| == |links|
    ensures c in Selected(links, mask, port) <==>
      exists k :: 0 <= k < |links| && mask[k] && c in LinkCommands(links[k], port)
    decreases |links|
  {
    if |links| > 0 {
      SelectedMembership(links[1..], mask[1..], port, c);
      if c in Selected(links[1..], mask[1..], port) {
        var k :| 0 <= k < |links[1..]| && mask[1..][k] && c in LinkCommands(links[1..][k], port);
        assert mask[k + 1] && links[k + 1] == links[1..][k];
      }
      if exists k :: 0 <= k < |links| && mask[k] && c in LinkCommands(links[k], port) {
        var k :| 0 <= k < |links| && mask[k] && c in LinkCommands(links[k], port);
        if k > 0 {
          assert mask[1..][k - 1] && links[1..][k - 1] == links[k];
        }
      }
    }
  }

  /** The links that are up. */
  function UpMask(st: seq<Status>): (m: seq<bool>)
    ensures |m| == |st|
  {
    seq(|st|, k requires 0 <= k < |st| => st[k] == Up)
  }

  /** The links that went from down to up. */
  function NewlyUpMask(before: seq<Status>, after: seq<Status>): (m: seq<bool>)
    requires |before| == |after|
    ensures |m| == |before|
  {
    seq(|before|, k requires 0 <= k < |before| => before[k] == Down && after[k] == Up)
  }

  /** The start-up linking loop: every link except the alternates g1-s2 and
      g2-s2, selected by endpoint pair. */
  function InitialLinkCommands(links: seq<Link>, port: int): seq<Command>
    decreases |links|
  {
    if |links| == 0 then []
    else (if IsAlternate(links[0]) then [] else LinkCommands(links[0], port))
         + InitialLinkCommands(links[1..], port)
  }

  /** The handover's re-linking loop: only the alternates g1-s2 and g2-s2,
      selected by endpoint pair. */
  function HandoverLinkCommands(links: seq<Link>, port: int): seq<Command>
    decreases |links|
  {
    if |links| == 0 then []
    else (if IsAlternate(links[0]) then LinkCommands(links[0], port) else [])
         + HandoverLinkCommands(links[1..], port)
  }

  lemma {:induction false} InitialLinkCommandsSelect(links: seq<Link>, mask: seq<bool>, port: int)
    requires |mask| == |links|
    requires forall k :: 0 <= k < |links| ==> (mask[k] <==> !IsAlternate(links[k]))
    ensures InitialLinkCommands(links, port) == Selected(links, mask, port)
    decreases |links|
  {
    if |links| > 0 {
      InitialLinkCommandsSelect(links[1..], mask[1..], port);
    }
  }

  lemma {:induction false} HandoverLinkCommandsSelect(links: seq<Link>, mask: seq<bool>, port: int)
    requires |mask| == |links|
    requires forall k :: 0 <= k < |links| ==> (mask[k] <==> IsAlternate(links[k]))
    ensures HandoverLinkCommands(links, port) == Selected(links, mask, port)
    decreases |links|
  {
    if |links| > 0 {
      HandoverLinkCommandsSelect(links[1..], mask[1..], port);
    }
  }

  /** For any link list, the pair-based start-up selection issues commands
      for exactly the links that are up after start-up. */
  lemma InitialLinkingIsUpLinks(links: seq<Link>, port: int)
    ensures InitialLinkCommands(links, port) == Selected(links, UpMask(InitialStatus(links)), port)
  {
    InitialLinkCommandsSelect(links, UpMask(InitialStatus(links)), port);
  }

  /** For any link list, the pair-based handover selection issues commands
      for exactly the links the handover brought from down to up. */
  lemma HandoverLinkingIsNewlyUp(links: seq<Link>, port: int)
    ensures var before := InitialStatus(links);
      HandoverLinkCommands(links, port) == Selected(links, NewlyUpMask(before, Handover(links, before)), port)
  {
    var before := InitialStatus(links);
    var after := Handover(links, before);
    var mask := NewlyUpMask(before, after);
    forall k | 0 <= k < |links|
      ensures mask[k] <==> IsAlternate(links[k])
    {
      if IsAlternate(links[k]) {
        assert !IsOriginal(links[k]);
      }
    }
    HandoverLinkCommandsSelect(links, mask, port);
  }

  /** One step of each loop: the head link's commands, then the rest. */
  lemma LoopStep(links: seq<Link>, port: int)
    requires |links| > 0
    ensures InitialLinkCommands(links, port) ==
      (if IsAlternate(links[0]) then [] else LinkCommands(links[0], port)) + InitialLinkCommands(links[1..], port)
    ensures HandoverLinkCommands(links, port) ==
      (if IsAlternate(links[0]) then LinkCommands(links[0], port) else []) + HandoverLinkCommands(links[1..], port)
  {
  }

  lemma ShapeInitialCommands(links: seq<Link>, port: int)
    requires DeclaredShape(links)
    ensures InitialLinkCommands(links, port) ==
      LinkCommands(links[0], port) + LinkCommands(links[1], port)
      + LinkCommands(links[2], port) + LinkCommands(links[5], port)
  {
    var t1, t2, t3, t4, t5 := links[1..], links[2..], links[3..], links[4..], links[5..];
    assert t1[1..] == t2 && t2[1..] == t3 && t3[1..] == t4 && t4[1..] == t5 && t5[1..] == [];
    LoopStep(t5, port);
    LoopStep(t4, port);
    LoopStep(t3, port);
    LoopStep(t2, port);
    LoopStep(t1, port);
    LoopStep(links, port);
  }

  lemma ShapeHandoverCommands(links: seq<Link>, port: int)
    requires DeclaredShape(links)
    ensures HandoverLinkCommands(links, port) == LinkCommands(links[3], port) + LinkCommands(links[4], port)
  {
    var t1, t2, t3, t4, t5 := links[1..], links[2..], links[3..], links[4..], links[5..];
    assert t1[1..] == t2 && t2[1..] == t3 && t3[1..] == t4 && t4[1..] == t5 && t5[1..] == [];
    LoopStep(t5, port);
    LoopStep(t4, port);
    LoopStep(t3, port);
    LoopStep(t2, port);
    LoopStep(t1, port);
    LoopStep(links, port);
  }

  /** In the scenario the start-up loop links s1-s2, s2-s3, g1-s1 and
      g2-s3, each from both ends towards the peer's address on that link. */
  lemma DeclaredInitialCommands(s: Settings, port: int)
    ensures var links := DeclaredTopology(s);
      InitialLinkCommands(links, port) ==
        LinkCommands(links[0], port) + LinkCommands(links[1], port)
        + LinkCommands(links[2], port) + LinkCommands(links[5], port)
  {
    ShapeInitialCommands(DeclaredTopology(s), port);
  }

  /** In the scenario the handover re-links exactly g1-s2 and g2-s2: four
      commands, g1 and g2 towards s2's address on their link and s2 back. */
  lemma DeclaredHandoverCommands(s: Settings, port: int)
    ensures var links := DeclaredTopology(s);
      HandoverLinkCommands(links, port) == [
        LinkCreate(G1, Udp(AllocP2pSubnet(3).host2, port)),
        LinkCreate(S2, Udp(AllocP2pSubnet(3).host1, port)),
        LinkCreate(G2, Udp(AllocP2pSubnet(4).host2, port)),
        LinkCreate(S2, Udp(AllocP2pSubnet(4).host1, port))
      ]
  {
    var links := DeclaredTopology(s);
    DeclaredLinks(s);
    ShapeHandoverCommands(links, port);
    assert CreatedAt(s, links[3], DeclaredSpecs[3], 3) && CreatedAt(s, links[4], DeclaredSpecs[4], 4);
  }
}
