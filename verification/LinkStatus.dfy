/** Link up/down bookkeeping: the statuses after start-up and the handover
    transition, as a status vector parallel to the link list. */
module LinkStatus {
  import opened Topology

  datatype Status = Up | Down

  /** Whether `l` joins `x` and `y`, in either direction. */
  predicate Between(l: Link, x: Node, y: Node) {
    (l.a == x && l.b == y) || (l.a == y && l.b == x)
  }

  /** `Between` is the launcher's comparison of endpoint sets. */
  lemma BetweenIsPairEquality(l: Link, x: Node, y: Node)
    ensures Between(l, x, y) <==> Endpoints(l) == {x, y}
  {
    if Endpoints(l) == {x, y} {
      assert x in Endpoints(l) && y in Endpoints(l);
      assert l.a in {x, y} && l.b in {x, y};
    }
  }

  /** The alternate access links g1-s2 and g2-s2: the hard-coded pair test
      the launcher uses to pick which links to (re-)link. */
  predicate IsAlternate(l: Link) {
    Between(l, G1, S2) || Between(l, G2, S2)
  }

  /** The access links a handover takes down: g1-s1 and g2-s3. */
  predicate IsOriginal(l: Link) {
    Between(l, G1, S1) || Between(l, G2, S3)
  }

  /** Sets every link between `x` and `y` to `s` and leaves the others
      alone; with no such link nothing changes. */
  function ConfigLinkStatus(links: seq<Link>, st: seq<Status>, x: Node, y: Node, s: Status): (r: seq<Status>)
    requires |st| == |links|
    ensures |r| == |links|
    ensures forall k :: 0 <= k < |links| ==> r[k] == (if Between(links[k], x, y) then s else st[k])
    decreases |links|
  {
    if |links| == 0 then []
    else [if Between(links[0], x, y) then s else st[0]] + ConfigLinkStatus(links[1..], st[1..], x, y, s)
  }

  /** Every link comes up when the network starts. */
  function AllUp(n: nat): seq<Status> {
    seq(n, _ => Up)
  }

  /** The statuses after start-up: everything up, then g1-s2 and g2-s2 down. */
  function InitialStatus(links: seq<Link>): (r: seq<Status>)
    ensures |r| == |links|
    ensures forall k :: 0 <= k < |links| ==> (r[k] == Down <==> IsAlternate(links[k]))
  {
    var st := ConfigLinkStatus(links, AllUp(|links|), G1, S2, Down);
    ConfigLinkStatus(links, st, G2, S2, Down)
  }

  /** The handover: g1-s1 down, g1-s2 up, g2-s3 down, g2-s2 up, in that
      order. The two pairs it touches are distinct, so each link ends in the
      state its pair dictates; every other link keeps its status. */
  function Handover(links: seq<Link>, st: seq<Status>): (r: seq<Status>)
    requires |st| == |links|
    ensures |r| == |links|
    ensures forall k :: 0 <= k < |links| && IsOriginal(links[k]) ==> r[k] == Down
    ensures forall k :: 0 <= k < |links| && IsAlternate(links[k]) ==> r[k] == Up
    ensures forall k :: 0 <= k < |links| && !IsOriginal(links[k]) && !IsAlternate(links[k]) ==> r[k] == st[k]
  {
    var st1 := ConfigLinkStatus(links, st, G1, S1, Down);
    var st2 := ConfigLinkStatus(links, st1, G1, S2, Up);
    var st3 := ConfigLinkStatus(links, st2, G2, S3, Down);
    ConfigLinkStatus(links, st3, G2, S2, Up)
  }

  predicate Touches(l: Link, g: Node) {
    l.a == g || l.b == g
  }

  /** Indices of the access links of `g` that are up. */
  function AccessUp(links: seq<Link>, st: seq<Status>, g: Node): set<nat>
    requires |st| == |links|
  {
    set k: nat | k < |links| && links[k].kind == Access && Touches(links[k], g) && st[k] == Up
  }

  /** Indices of all access links of `g`, whatever their status. */
  function AccessCandidates(links: seq<Link>, g: Node): set<nat> {
    set k: nat | k < |links| && links[k].kind == Access && Touches(links[k], g)
  }

  /** No dual-homing: every ground node has exactly one access link up. */
  predicate SingleHomed(links: seq<Link>, st: seq<Status>)
    requires |st| == |links|
  {
    forall g: Node :: RoleOf(g) == Ground ==> |AccessUp(links, st, g)| == 1
  }

  /** In a list shaped like the scenario's, a ground node's candidates are
      its two access links, and the up ones are read off their statuses. */
  lemma ShapeAccess(links: seq<Link>, st: seq<Status>)
    requires DeclaredShape(links) && |st| == 6
    ensures AccessCandidates(links, G1) == {2, 3}
    ensures AccessCandidates(links, G2) == {4, 5}
    ensures AccessUp(links, st, G1) == (if st[2] == Up then {2} else {}) + (if st[3] == Up then {3} else {})
    ensures AccessUp(links, st, G2) == (if st[4] == Up then {4} else {}) + (if st[5] == Up then {5} else {})
  {
    assert forall k: nat :: k < 6 && links[k].kind == Access ==> 2 <= k;
    assert forall k: nat :: k < 6 && Touches(links[k], G1) ==> k == 2 || k == 3;
    assert forall k: nat :: k < 6 && Touches(links[k], G2) ==> k == 4 || k == 5;
  }

  lemma ShapeInitialStatus(links: seq<Link>)
    requires DeclaredShape(links)
    ensures InitialStatus(links) == [Up, Up, Up, Down, Down, Up]
  {
    assert IsAlternate(links[3]) && IsAlternate(links[4]);
    assert !IsAlternate(links[0]) && !IsAlternate(links[1]) && !IsAlternate(links[2]) && !IsAlternate(links[5]);
  }

  lemma ShapeHandoverStatus(links: seq<Link>)
    requires DeclaredShape(links)
    ensures Handover(links, InitialStatus(links)) == [Up, Up, Down, Up, Up, Down]
  {
    ShapeInitialStatus(links);
    assert IsAlternate(links[3]) && IsAlternate(links[4]);
    assert IsOriginal(links[2]) && IsOriginal(links[5]);
    assert !IsOriginal(links[0]) && !IsOriginal(links[1]) && !IsAlternate(links[0]) && !IsAlternate(links[1]);
  }

  /** A ground node is single-homed exactly when one of its two candidates is up. */
  lemma ShapeSingleHomed(links: seq<Link>, st: seq<Status>)
    requires DeclaredShape(links) && |st| == 6
    requires (st[2] == Up) != (st[3] == Up) && (st[4] == Up) != (st[5] == Up)
    ensures SingleHomed(links, st)
  {
    ShapeAccess(links, st);
    forall g: Node | RoleOf(g) == Ground
      ensures |AccessUp(links, st, g)| == 1
    {
    }
  }

  lemma ShapeInitial(links: seq<Link>)
    requires DeclaredShape(links)
    ensures var st := InitialStatus(links);
      && AccessUp(links, st, G1) == {2}
      && AccessUp(links, st, G2) == {5}
      && st[0] == Up && st[1] == Up
      && SingleHomed(links, st)
  {
    ShapeInitialStatus(links);
    var st := InitialStatus(links);
    ShapeAccess(links, st);
    ShapeSingleHomed(links, st);
  }

  lemma ShapeHandover(links: seq<Link>)
    requires DeclaredShape(links)
    ensures var before := InitialStatus(links);
      var after := Handover(links, before);
      && AccessUp(links, after, G1) == {3}
      && AccessUp(links, after, G2) == {4}
      && SingleHomed(links, after)
      && (forall g: Node :: RoleOf(g) == Ground ==>
            AccessUp(links, after, g) == AccessCandidates(links, g) - AccessUp(links, before, g))
      && after[0] == before[0] && after[1] == before[1]
  {
    ShapeInitialStatus(links);
    ShapeHandoverStatus(links);
    var before := InitialStatus(links);
    var after := Handover(links, before);
    ShapeAccess(links, before);
    ShapeAccess(links, after);
    ShapeSingleHomed(links, after);
    forall g: Node | RoleOf(g) == Ground
      ensures AccessUp(links, after, g) == AccessCandidates(links, g) - AccessUp(links, before, g)
    {
    }
  }

  /** After start-up g1 is attached through g1-s1 only and g2 through g2-s3
      only; both backbone links are up. */
  lemma InitialSingleHomed(s: Settings)
    ensures var links := DeclaredTopology(s);
      var st := InitialStatus(links);
      && AccessUp(links, st, G1) == {2}
      && AccessUp(links, st, G2) == {5}
      && st[0] == Up && st[1] == Up
      && SingleHomed(links, st)
  {
    ShapeInitial(DeclaredTopology(s));
  }

  /** After the handover each ground node is still attached through exactly
      one access link, and it is the other candidate; the backbone links
      keep their status. */
  lemma HandoverSwapsAccess(s: Settings)
    ensures var links := DeclaredTopology(s);
      var before := InitialStatus(links);
      var after := Handover(links, before);
      && AccessUp(links, after, G1) == {3}
      && AccessUp(links, after, G2) == {4}
      && SingleHomed(links, after)
      && (forall g: Node :: RoleOf(g) == Ground ==>
            AccessUp(links, after, g) == AccessCandidates(links, g) - AccessUp(links, before, g))
      && after[0] == before[0] && after[1] == before[1]
  {
    ShapeHandover(DeclaredTopology(s));
  }
}
