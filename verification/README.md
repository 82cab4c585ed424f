# Mininet NDN launcher: topology, addressing and link-state model

This project models the bookkeeping core of `scripts/mn-ndnd.py`, a launcher
that emulates a small satellite-style network (ground stations g1, g2 and relays
s1, s2, s3) in Mininet and runs one `ndnd` routing daemon per node. The model
covers the parts that do not depend on the substrate, the clock or the daemon:

- **Addressing** (`Addressing.dfy`): link `i` gets the `/30` block
  `10.0.(i/64).(4*(i%64))` and its hosts `.+1` and `.+2`. Addresses are four octets.
- **Shaping** (`Shaping.dfy`): the traffic-control keyword map. A key is present
  exactly when its option is set. Numeric options count as set when not `None`.
  String options count as set when truthy.
- **Topology** (`Topology.dfy`): `add_p2p` and the six declared links, built in
  order from an incrementing subnet index. An unknown link kind is an error.
- **Link status** (`LinkStatus.dfy`): the status vector after start-up and after
  the handover. It includes the "each ground node has exactly one access link up"
  invariant.
- **Neighbour linking** (`Neighbor.dfy`): the `dv link-create` commands. The
  source selects links by hard-coded node pairs. The model proves that this
  selection equals "links that are up" at start-up, and "links that went from
  down to up" at the handover.
- **Run** (`Scenario.dfy`): STEADY, then optionally SWITCHED. The handover is
  scheduled exactly when the handover delay is positive; when it is taken it is
  one atomic step.
- **Binary resolution** (`Resolve.dfy`): `_find_ndnd` over an environment of
  existing paths and the executable-search result.
- **Cleanup** (`Shutdown.dfy`): the process-table walk. Whatever `Exception` the
  terminate, wait and kill attempts raise, it empties the table and then stops the
  network. A keyboard interrupt during a wait is not caught: the walk ends there,
  the unvisited entries stay in the table and the network stop is skipped.

Behaviour the model takes from the code as written, where one might expect otherwise:

- The allocator has no capacity check and raises no capacity error. For an index of 16384 or more it formats
  a third "octet" above 255. The model keeps octets unbounded and proves that all
  three addresses are well-formed exactly when the index is below 16384.
- The impairment values are not validated (bandwidth > 0, loss in [0,100]). The
  model does not validate them either.
- `_find_ndnd` tests the explicit path for truthiness, so an empty `--ndnd ""`
  falls through to the search path.

## Model

| member | source | states |
|---|---|---|
| Addressing.AllocP2pSubnet | scripts/mn-ndnd.py:17-25 | the block is a /30 in 10.0.x.x and both hosts share the base's first three octets |
| Addressing.AllocLayout | scripts/mn-ndnd.py:17-25 | block `i` starts 4·i addresses after 10.0.0.0, the hosts are base+1 and base+2, and all three addresses are well-formed iff i < 16384 |
| Addressing.AllocRoundTrip | scripts/mn-ndnd.py:17-25 | the index is recovered from the base and from either host, so the allocation is injective |
| Addressing.AllocWithinSpace | scripts/mn-ndnd.py:17-25 | below capacity, base and hosts lie in 10.0.0.0/16 and in their own block; the hosts are distinct and are neither the network nor the broadcast address |
| Addressing.AllocDisjoint | scripts/mn-ndnd.py:17-25 | distinct indices give /30 blocks with no address in common |
| Shaping.TcLinkKwargs | scripts/mn-ndnd.py:109-122 | "bw" and "use_htb"=true iff bw is given; "delay"/"jitter" iff truthy; "loss" iff not None (0 kept); "max_queue_size" iff queue is given; no other key; each value is its option's value |
| Topology.ParseKind | scripts/mn-ndnd.py:188-205 | only "access" and "isl" are link kinds; every other string is rejected |
| Topology.AddP2p | scripts/mn-ndnd.py:183-225 | consumes subnet index n and advances it to n+1; a gets host1 and b gets host2 of block n; the shaping comes from the kind's profile; an unknown kind is an error |
| Topology.Build | scripts/mn-ndnd.py:181-235 | the k-th declaration gets subnet index next+k and the index ends at next+count; the build fails iff some kind is unknown, with the first unknown kind as the error |
| Topology.DeclaredTopology | scripts/mn-ndnd.py:227-235 | the six declarations build without error into s1-s2, s2-s3 (isl), then g1-s1, g1-s2, g2-s2, g2-s3 (access), in that order |
| Topology.DeclaredLinks | scripts/mn-ndnd.py:227-235 | link k is created from the k-th declaration with subnet index k (a gets host1, b gets host2, its class's shaping), and k is recovered from its block |
| Topology.DeclaredSubnetsDisjoint | scripts/mn-ndnd.py:180-235 | no address lies in the subnets of two different links of the six |
| Topology.DeclaredAddresses | scripts/mn-ndnd.py:180-235 | both endpoint addresses of every link are well-formed and lie in that link's own /30 |
| LinkStatus.BetweenIsPairEquality | scripts/mn-ndnd.py:303 | the model's "link joins x and y" test is the source's comparison of endpoint sets `{a, b} == {x, y}` |
| LinkStatus.ConfigLinkStatus | scripts/mn-ndnd.py:240-241 | the effect of the substrate's status call on the status vector: every link between the two named nodes takes the new status; every other link keeps its own |
| LinkStatus.InitialStatus | scripts/mn-ndnd.py:237-241 | after start-up a link is down iff it is g1-s2 or g2-s2; all others are up |
| LinkStatus.Handover | scripts/mn-ndnd.py:312-315 | g1-s1 and g2-s3 end down, g1-s2 and g2-s2 end up, every other link is unchanged |
| LinkStatus.InitialSingleHomed | scripts/mn-ndnd.py:237-241 | after start-up g1's only up access link is g1-s1 and g2's is g2-s3; both backbone links are up; every ground node has exactly one access link up |
| LinkStatus.HandoverSwapsAccess | scripts/mn-ndnd.py:308-315 | after the handover every ground node still has exactly one access link up, and it is the other candidate (g1-s2, g2-s2); the backbone links keep their status |
| Neighbor.SelectedLength | scripts/mn-ndnd.py:297-306 | the reference selection issues two commands per selected link and nothing else, so its length is twice the number of selected links |
| Neighbor.SelectedMembership | scripts/mn-ndnd.py:297-306 | a command is issued iff it is one of the two commands of a selected link: a towards b's address, b towards a's |
| Neighbor.InitialLinkingIsUpLinks | scripts/mn-ndnd.py:297-306 | for any link list, the pair-based start-up loop issues exactly the commands of the links that are up after start-up, in link order |
| Neighbor.HandoverLinkingIsNewlyUp | scripts/mn-ndnd.py:317-326 | for any link list, the handover loop issues exactly the commands of the links the handover brought from down to up |
| Neighbor.DeclaredInitialCommands | scripts/mn-ndnd.py:297-306 | in the scenario the start-up commands are those of s1-s2, s2-s3, g1-s1 and g2-s3, in that order |
| Neighbor.DeclaredHandoverCommands | scripts/mn-ndnd.py:317-326 | in the scenario the handover issues four commands: g1 and g2 towards s2's address on their new link, and s2 back towards each of them |
| Scenario.Start | scripts/mn-ndnd.py:237-306 | the run starts STEADY on the declared links, single-homed, having issued exactly the commands of the up links |
| Scenario.TriggerHandover | scripts/mn-ndnd.py:308-326 | the transition goes to SWITCHED; it keeps the link list and every command issued before; it sets originals down and alternates up and leaves the rest unchanged |
| Scenario.Run | scripts/mn-ndnd.py:308-328 | the handover is scheduled iff `handover_after > 0`; a run whose handover is taken ends SWITCHED after one atomic step, and one with no positive delay stays STEADY |
| Scenario.RunInvariant | scripts/mn-ndnd.py:237-328 | for every setting, port and delay a run ends single-homed with the backbone up; a handover appends exactly the newly-up links' commands; with no positive delay the run stays in its start state |
| Scenario.HandoverScenario | scripts/mn-ndnd.py:227-326 | end to end: six links in the documented shape; the statuses go from up,up,up,down,down,up to up,up,down,up,up,down; the handover adds only g1-s2's and g2-s2's commands |
| Resolve.Join | scripts/mn-ndnd.py:41 | joining onto an absolute path, or an absolute second part, yields an absolute path |
| Resolve.AbsPath | scripts/mn-ndnd.py:31-32 | an absolute path is kept; relative to an absolute working directory the result is absolute |
| Resolve.FindNdnd | scripts/mn-ndnd.py:28-47 | a non-empty explicit path is used iff it exists, otherwise "explicit missing" with no fallback; otherwise the search path wins over repo_root/ndnd/ndnd; "not found" iff all three fail; every answer is an existing path or the search result |
| Resolve.ExplicitHasNoFallback | scripts/mn-ndnd.py:29-35 | with an explicit path the outcome depends only on whether that path exists |
| Resolve.SearchPathWins | scripts/mn-ndnd.py:37-39 | with no explicit path, a search hit decides the outcome whatever else exists |
| Shutdown.CleanupLogMembership | scripts/mn-ndnd.py:245-255 | every tracked process gets a terminate attempt; a kill is attempted exactly for those whose terminate/wait failed; nothing else is attempted |
| Shutdown.KillOutcomeIrrelevant | scripts/mn-ndnd.py:250-254 | a failed kill is swallowed: the kill outcomes never change what cleanup does |
| Shutdown.StopsAt | scripts/mn-ndnd.py:246-250 | the walk stops at the first entry whose wait is interrupted, or at the end of the snapshot; no earlier entry is interrupted |
| Shutdown.Cleanup | scripts/mn-ndnd.py:245-259 | with no interrupt, whatever `Exception` the attempts raise, the table ends empty, the attempts are those of each process in table order (see Shutdown.CleanupLogMembership) and the network stop is attempted last; an interrupt during a wait ends the walk after that terminate attempt, leaves exactly that entry and the later ones in the table with their handles, and skips the network stop |
| Shutdown.CleanupTwice | scripts/mn-ndnd.py:245-259 | after a walk that completes, cleanup is idempotent: run again on the table the first run left, it finds it empty, attempts nothing on processes and only stops the network again |

## Left out

- Mininet calls are not modelled. This covers creating the network and hosts, `addLink`, `start`/`stop`, the interface effects of `configLinkStatus`, `popen` and `cmd`. They are foreign library calls and I/O. Only the link list, the status vector and the issued commands are modelled.
- Link status when two nodes are not connected: Mininet reports an error and changes nothing. The model also changes nothing and does not model the message.
- Config-file and shell-wrapper text generation (scripts/mn-ndnd.py:50-106) is string templating written to files.
- The daemon start loop (scripts/mn-ndnd.py:262-280) is not modelled: stale-socket removal, per-node paths and process launch are filesystem and process I/O. `Shutdown.Cleanup` takes the resulting process table as input.
- The readiness poll (scripts/mn-ndnd.py:283-291) depends on the wall clock, `sleep` and the filesystem.
- The handover timer thread, the sleep before the handover, the interactive CLI and the sleep-forever loop are concurrency and interactive I/O. The handover is one atomic transition.
- Argument parsing, the root check (`_ensure_root`) and the log messages are not modelled.
- Floating-point values (bandwidths, loss, handover delay) are carried as `real` and never computed with. Only "delay > 0" is used.
- Neighbour-command and kill failures are swallowed by the launcher (`|| true`, `except: pass`). The model records which commands and attempts were issued, not how they turned out.
- Resolve.AbsPath: joins the working directory and the relative path but does not apply `normpath` (`.`/`..` removal, duplicate slashes).
- Resolve.FindNdnd: path existence and the executable search are oracle inputs, not the filesystem.
- Scenario.Run: assumes the launcher outlives the handover delay. The handover runs on a daemon thread after `time.sleep(handover_after)` (scripts/mn-ndnd.py:309-310, 328). A run that ends first, by leaving the CLI or by Ctrl-C, never takes it, and the model does not track when the run ends. A delay too large for `time.sleep` (for example `inf`, which a `real` cannot hold) raises inside the thread, so no handover happens either.
- Scenario.Run: the run model stops at the handover. Cleanup is modelled separately in `Shutdown`. The launcher reaches it from its `finally` clause after a normal exit, a Ctrl-C or an exception inside the `try` (scripts/mn-ndnd.py:261-346).
- Shutdown.Cleanup: does not model cleanup being skipped. No cleanup runs when the process dies on SIGTERM, because Python installs no handler for it and `finally` never runs. None runs either for an exception raised before the `try` at scripts/mn-ndnd.py:261, such as one from `net.start()` or an unknown link kind. The model returns the unknown-kind error and stops.
- Shutdown.Cleanup: models an interrupt only during the bounded wait, where the walk spends its time. An interrupt during `send_signal`, `kill`, `pop` or `net.stop()` is not modelled.
- Shutdown.CleanupTwice: states idempotence only after a walk that completes. After an interrupted walk the interrupt leaves the launcher, so no second cleanup runs.
