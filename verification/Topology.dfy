/** The fixed five-node, six-link scenario: node set, link kinds, and the
    `add_p2p` builder that numbers links with an incrementing subnet index. */
module Topology {
  import opened Wrappers
  import opened Addressing
  import opened Shaping

  /** The five emulated hosts. */
  datatype Node = G1 | G2 | S1 | S2 | S3

  datatype Role = Ground | Relay

  function RoleOf(n: Node): Role {
    match n
    case G1 | G2 => Ground
    case _ => Relay
  }

  /** The two link classes: ground-to-relay access and inter-satellite. */
  datatype LinkKind = Access | Isl

  /** The kind strings `add_p2p` accepts; any other string is an error. */
  function ParseKind(kind: string): (r: Option<LinkKind>)
    ensures r == Some(Access) <==> kind == "access"
    ensures r == Some(Isl) <==> kind == "isl"
    ensures r.None? <==> kind != "access" && kind != "isl"
  {
    if kind == "access" then Some(Access)
    else if kind == "isl" then Some(Isl)
    else None
  }

  /** One class's impairment options as given on the command line. */
  datatype Impairment = Impairment(bw: Option<real>, delay: Option<string>,
                                   jitter: Option<string>, loss: Option<real>)

  /** The impairment settings of a run; the queue size is shared by both classes. */
  datatype Settings = Settings(access: Impairment, isl: Impairment, queue: Option<int>)

  /** The shaping keywords every link of the given class receives. */
  function KwargsFor(s: Settings, kind: LinkKind): Kwargs {
    var p := if kind == Access then s.access else s.isl;
    TcLinkKwargs(p.bw, p.delay, p.jitter, p.loss, s.queue)
  }

  /** A link declaration: the two endpoints and the kind string. */
  datatype LinkSpec = LinkSpec(a: Node, b: Node, kind: string)

  /** A created link, as recorded in the launcher's link list. */
  datatype Link = Link(a: Node, b: Node, aIp: Ipv4, bIp: Ipv4, cidr: Cidr,
                       kind: LinkKind, shaping: Kwargs)

  datatype BuildError = UnknownKind(kind: string)

  function Endpoints(l: Link): set<Node> {
    {l.a, l.b}
  }

  /** `add_p2p`: takes the subnet with the current index, advances the index
      by one, and rejects an unknown kind. */
  function AddP2p(s: Settings, next: nat, spec: LinkSpec): (r: Result<(Link, nat), BuildError>)
    ensures r.Success? <==> ParseKind(spec.kind).Some?
    ensures r.Failure? ==> r.error == UnknownKind(spec.kind)
    ensures r.Success? ==>
      var (l, after) := r.value;
      && after == next + 1
      && l.a == spec.a && l.b == spec.b
      && l.cidr == AllocP2pSubnet(next).cidr
      && l.aIp == AllocP2pSubnet(next).host1
      && l.bIp == AllocP2pSubnet(next).host2
      && Some(l.kind) == ParseKind(spec.kind)
      && l.shaping == KwargsFor(s, l.kind)
  {
    var sub := AllocP2pSubnet(next);
    match ParseKind(spec.kind)
    case None => Failure(UnknownKind(spec.kind))
    case Some(kind) =>
      Success((Link(spec.a, spec.b, sub.host1, sub.host2, sub.cidr, kind, KwargsFor(s, kind)), next + 1))
  }

  predicate AllKindsKnown(specs: seq<LinkSpec>) {
    forall k :: 0 <= k < |specs| ==> ParseKind(specs[k].kind).Some?
  }

  /** `k` is the first declaration whose kind is unknown. */
  predicate FirstUnknown(specs: seq<LinkSpec>, k: nat) {
    && k < |specs|
    && ParseKind(specs[k].kind).None?
    && forall j :: 0 <= j < k ==> ParseKind(specs[j].kind).Some?
  }

  /** The link `AddP2p` creates for a well-kinded declaration at index `i`. */
  predicate CreatedAt(s: Settings, l: Link, spec: LinkSpec, i: nat) {
    && l.a == spec.a && l.b == spec.b
    && l.cidr == AllocP2pSubnet(i).cidr
    && l.aIp == AllocP2pSubnet(i).host1
    && l.bIp == AllocP2pSubnet(i).host2
    && Some(l.kind) == ParseKind(spec.kind)
    && l.shaping == KwargsFor(s, l.kind)
  }

  lemma ConsCreated(s: Settings, l: Link, rest: seq<Link>, specs: seq<LinkSpec>, next: nat)
    requires |specs| == |rest| + 1
    requires CreatedAt(s, l, specs[0], next)
    requires forall k :: 0 <= k < |rest| ==> CreatedAt(s, rest[k], specs[1..][k], next + 1 + k)
    ensures forall k :: 0 <= k < |specs| ==> CreatedAt(s, ([l] + rest)[k], specs[k], next + k)
  {
    forall k | 0 <= k < |specs|
      ensures CreatedAt(s, ([l] + rest)[k], specs[k], next + k)
    {
      if k > 0 {
        assert ([l] + rest)[k] == rest[k - 1] && specs[k] == specs[1..][k - 1];
      }
    }
  }

  /** A sequence of `add_p2p` calls starting from subnet index `next`: the
      k-th declaration gets index `next + k`, the index ends `|specs|` further
      on, and the first unknown kind aborts the build. */
  function Build(s: Settings, specs: seq<LinkSpec>, next: nat): (r: Result<(seq<Link>, nat), BuildError>)
    ensures r.Success? <==> AllKindsKnown(specs)
    ensures r.Success? ==>
      && |r.value.0| == |specs|
      && r.value.1 == next + |specs|
      && forall k :: 0 <= k < |specs| ==> CreatedAt(s, r.value.0[k], specs[k], next + k)
    ensures r.Failure? ==>
      exists k: nat :: FirstUnknown(specs, k) && r.error == UnknownKind(specs[k].kind)
    decreases |specs|
  {
    if |specs| == 0 then Success(([], next))
    else
      var first := AddP2p(s, next, specs[0]);
      if first.Failure? then
        assert FirstUnknown(specs, 0);
        Failure(first.error)
      else
        var tail := Build(s, specs[1..], first.value.1);
        if tail.Failure? then
          var k: nat :| FirstUnknown(specs[1..], k) && tail.error == UnknownKind(specs[1..][k].kind);
          assert FirstUnknown(specs, k + 1);
          Failure(tail.error)
        else
          ConsCreated(s, first.value.0, tail.value.0, specs, next);
          Success(([first.value.0] + tail.value.0, tail.value.1))
  }

  /** The declared links, in creation order: the backbone first, then both
      access candidates of each ground node. */
  const DeclaredSpecs: seq<LinkSpec> := [
    LinkSpec(S1, S2, "isl"),
    LinkSpec(S2, S3, "isl"),
    LinkSpec(G1, S1, "access"),
    LinkSpec(G1, S2, "access"),
    LinkSpec(G2, S2, "access"),
    LinkSpec(G2, S3, "access")
  ]

  /** Endpoints and kinds of the scenario's six links, in declaration order. */
  predicate DeclaredShape(links: seq<Link>) {
    && |links| == 6
    && links[0].a == S1 && links[0].b == S2 && links[0].kind == Isl
    && links[1].a == S2 && links[1].b == S3 && links[1].kind == Isl
    && links[2].a == G1 && links[2].b == S1 && links[2].kind == Access
    && links[3].a == G1 && links[3].b == S2 && links[3].kind == Access
    && links[4].a == G2 && links[4].b == S2 && links[4].kind == Access
    && links[5].a == G2 && links[5].b == S3 && links[5].kind == Access
  }

  /** The scenario's link list: the declarations build without error into
      s1-s2, s2-s3 (inter-satellite), then g1-s1, g1-s2, g2-s2, g2-s3 (access). */
  function DeclaredTopology(s: Settings): (links: seq<Link>)
    ensures DeclaredShape(links)
  {
    assert AllKindsKnown(DeclaredSpecs);
    var links := Build(s, DeclaredSpecs, 0).value.0;
    assert forall k :: 0 <= k < 6 ==> CreatedAt(s, links[k], DeclaredSpecs[k], k);
    links
  }

  /** Link k of the scenario is created from the k-th declaration with
      subnet index k, which is recovered from its block. */
  lemma DeclaredLinks(s: Settings)
    ensures forall k :: 0 <= k < 6 ==> CreatedAt(s, DeclaredTopology(s)[k], DeclaredSpecs[k], k)
    ensures forall k :: 0 <= k < 6 ==> IndexOf(DeclaredTopology(s)[k].cidr.base) == k
  {
    assert AllKindsKnown(DeclaredSpecs);
    var links := DeclaredTopology(s);
    forall k | 0 <= k < 6
      ensures IndexOf(links[k].cidr.base) == k
    {
      AllocRoundTrip(k);
    }
  }

  /** Any two of the six links have disjoint subnets. */
  lemma DeclaredSubnetsDisjoint(s: Settings, i: nat, j: nat, ip: Ipv4)
    requires i < j < 6
    ensures DeclaredTopology(s)[i].cidr.prefixLen == 30 && DeclaredTopology(s)[j].cidr.prefixLen == 30
    ensures !(InBlock(DeclaredTopology(s)[i].cidr, ip) && InBlock(DeclaredTopology(s)[j].cidr, ip))
  {
    DeclaredLinks(s);
    AllocDisjoint(i, j);
  }

  /** Both endpoint addresses of each of the six links are well-formed and
      lie in that link's own subnet. */
  lemma DeclaredAddresses(s: Settings, k: nat)
    requires k < 6
    ensures DeclaredTopology(s)[k].cidr.prefixLen == 30
    ensures WellFormed(DeclaredTopology(s)[k].aIp) && WellFormed(DeclaredTopology(s)[k].bIp)
    ensures InBlock(DeclaredTopology(s)[k].cidr, DeclaredTopology(s)[k].aIp)
    ensures InBlock(DeclaredTopology(s)[k].cidr, DeclaredTopology(s)[k].bIp)
  {
    DeclaredLinks(s);
    AllocWithinSpace(k);
  }
}
