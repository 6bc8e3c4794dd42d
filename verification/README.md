# Verified model of CHIA's cache, cluster bring-up and task protocols

CHIA runs build and simulation work on a Ray cluster whose machines may sit on a LAN, behind SSH tunnels or on a
tailscale network. This project models the parts of it where a mistake is silent: the object cache on the head node,
the placement of workers and cloud instances, the addresses and ports handed out at bring-up, the relays that carry
traffic between machines, the scoped teardown that must not touch a neighbouring cluster, and three protocols around
single Ray tasks. Everything outside (Ray, SSH, DNS, the process table, the cloud, the clock) is an input: an oracle,
a snapshot, or an arbitrary interleaving.

`dafny verify dfyconfig.toml` verifies all of it.

## How it is organised

| file | what it models |
|---|---|
| `recency.dfy` | the cache as users see it: a list ordered by last use, its operations, and whole runs |
| `cache.dfy` | the `Cache` actor: index, byte counter and pickle files, proved to refine `recency.dfy` step by step and over runs |
| `placement.dfy` | greedy placement of workers on machines, its balance and optimality |
| `packing.dfy` | first-fit packing of containers on EC2 instances |
| `instances.dfy` | launching missing EC2 instances by index, and finding them by position |
| `cluster.dfy`, `text.dfy`, `results.dfy` | worker keys and ranks, numerals and dotted addresses, result types |
| `tailnet.dfy` | the tailnet allocator |
| `relay.dfy` | relay specs, the network they form, end-to-end delivery |
| `deployment.dfy` | placement, allocation and relays together |
| `tunnels.dfy` | the SSH tunnel allocator and the separation of tunneled workers |
| `addresses.dfy` | printing, parsing, normalising and comparing GCS addresses |
| `scoped_stop.dfy` | the killer that stops one cluster's Ray processes |
| `command_lines.dfy` | which address a command line carries, word by word, and so whom the killer signals |
| `bring_up.dfy` | the worker's start script, its variables and options |
| `teardown.dfy` | what the start script dials, and the address teardown recomputes |
| `reconcile.dfy` | which workers an existing cluster still misses |
| `pid_registry.dfy`, `proc_table.dfy`, `process_kill.dfy` | tracking the subprocesses of remote tasks, reading /proc, and killing them |
| `chia_wait.dfy` | waiting with bounded resubmission of stuck tasks |
| `dispatch.dfy` | deciding between direct dispatch and the head relay |

Code that works in place is a class or a method with loops, and its contract equates its result or new state with a
specification function; the lemmas are about that function, and say what it means without it. A few conventions of the
model:

- A Python dictionary whose order matters is a sequence of rows or items; one whose order does not is a map.
- A pickle is a tag, a value and a length; `fileName` is any injective naming; modification times are write times.
- Ports are integers, and addresses are text, because the code compares text.
- A run is any finite sequence of operations or messages. Nothing bounds its length.

## What was learnt

Stating the properties at full generality turned several of them into exact conditions.

- Three ports of 127.0.0.1 are taken on every machine: the CONNECT proxy's and tailscaled's two. A relay starts exactly
  if these are apart and no participant on its machine uses one for tools (`Relay.RelayUpIff`), which bring-up notices;
  a CONNECT request reaches its participant exactly unless the port asked for is one of them
  (`Relay.ConnectDelivery`), which nothing checks. The configuration rules neither out (`Relay.ToolPortClashes`,
  `Relay.SocksPortClashes`, `Relay.GcsPortUnreachable`); the default ports do (`Deployment.DefaultDelivers`).
- In a tailnet cluster, a worker in a container on the head machine dials the head's advertised address, while its own
  scoped stop looks for the head's other one, because `gcs_address_for_node` only asks whether the machine is a tailnet
  host. The two agree exactly when the addresses are equal (`Teardown.UpDownAgreement`); otherwise that stop misses the
  worker unless both resolve alike (`Teardown.ColocatedMissed`), for instance with a head at 10.0.0.1 and the default
  advertised address (`Teardown.DefaultHeadMissesColocated`). The head's stop, which comes later, looks for the
  advertised one and finds it (`Teardown.HeadStopFinds`). The documentation of that function promises an exact match.
- Bring-up rewrites only the literal `--address=$RAY_HEAD_IP:6379`. A direct worker is therefore found by teardown
  exactly if its command names the head's GCS port, as the clusters on port 6378 do (`Teardown.OtherPortFound`); a
  tunneled one exactly if it names 6379 or its own tunnel's port, so that a command with 6378 dials a port its tunnel
  does not carry (`Teardown.OtherPortMissesTunnel`), and one with 63790 has the filled-in port followed by a 0
  (`Teardown.UpDownAgreement`).
- `@name:i` names the instance tagged i exactly when the tags in use have no negative or repeated index that matters
  and are all wanted or all that is wanted (`Instances.PositionIsIndex`). Tags beyond the wanted count break it: with
  the instance 5 running and three wanted, `@name:2` is the instance tagged 5 (`Instances.StrayTagDisplaces`).
- When a launch fails, everything launched in that call is terminated; when every launch succeeds but a launched
  instance never gets an address, the call fails too and everything it launched is left running
  (`Instances.ProvisionMissing`).
- The state API repeating a row makes one `chia_wait` call resubmit twice, cancelling its own fresh submission
  (`ChiaWait.RepeatedRowRetriesTwice`), but never beyond `max_retries` in total (`ChiaWait.RunsAreBounded`). The number
  of resubmissions in a call is exactly the number of wedged rows for the task, cut off at the limit
  (`ChiaWait.CallIsSafe`).
- The comment on the cached node snapshot says staleness can never turn "must relay" into "direct". That holds for a
  hard pin with any snapshot whose roles still hold (`Dispatch.DirectIsSafe`), but not for a resource demand: a tunneled
  node that joined after the snapshot and offers the resource is not considered (`Dispatch.StaleSnapshotMisleads`). A
  "direct" is right exactly when every landable node outside the expected targets is harmless for the caller: not
  tunneled, for a LAN machine (`Dispatch.DirectIsExact`).
- Normalising is idempotent on a text without brackets exactly unless its host resolves to 127.0.0.1 on a machine whose
  own address is another, or its port holds a colon and its host none (`Addresses.PlainTwice`;
  `Addresses.NormalizeTwice` says it for every text). Such texts settle by the third pass (`Addresses.PlainSettles`).
  A text with an opening bracket, no closing one and two colons never does (`Addresses.NeverSettles`).

## Model

| member | source | states |
|---|---|---|
| Recency.TotalWithout | chia/base/cache.py:200-203 | Taking a tag out of the index takes exactly its own bytes off the sum of sizes, so a counter decremented by the popped size stays equal to that sum. |
| Recency.ShedIsShortest | chia/base/cache.py:205-209 | Eviction is minimal: what stays fits or nothing stays, and no shorter least-recently-used prefix would have made room. |
| Recency.HitReturnsLastStored | chia/base/cache.py:218-235 | Over any run, with files vanishing and restarts anywhere, a hit returns the data of the last write of that tag that was stored and neither evicted nor flushed since. |
| Recency.OrderIsLastUse | chia/base/cache.py:184-235 | Over any run without restart, index order is the order of last successful write or read hit. |
| Recency.BudgetOverRuns | chia/base/cache.py:158-216 | From any starting list, even over budget, the total never grows before the first stored write, and from that write on stays within the budget. |
| Recency.EqualSizesKeepMostRecent | chia/base/cache.py:184-235 | With items of one size and only writes and reads, the cache holds exactly the floor(budget/size) most recently used distinct tags, in order. |
| Recency.RestartOrdersByLastWrite | chia/base/cache.py:158-178 | After any run, a restart rebuilds exactly the readable items, with their sizes and values, ordered by last write instead of last use. |
| Recency.RestartsSetBudget | chia/base/cache.py:138-148 | After any run the budget is the argument of the last restart in it, else the initial one. |
| Recency.WritesFitTheBudgetOfTheirTime | chia/base/cache.py:184-198 | In any run, with restarts anywhere, a write is stored exactly if its pickle fits the budget given at the last restart before it. |
| Recency.StoredWriteKeepsBudget | chia/base/cache.py:184-216 | Wherever restarts fall, a stored write leaves the total within the budget of its time, and it stays so until the next restart. |
| ObjectCache.PopRefines | chia/base/cache.py:240-248 | Forgetting a tag and unlinking its file is removing it from the recency list, and keeps index and directory coherent. |
| ObjectCache.StoreRefines | chia/base/cache.py:211-215 | Writing a tag's file and indexing it last is appending the value to the recency list, and keeps coherence. |
| ObjectCache.TouchRefines | chia/base/cache.py:234-235 | A read hit only moves the item to the back of the recency list. |
| ObjectCache.LoseRefines | chia/base/cache.py:229-233 | A file deleted or corrupted from outside turns exactly its own item into one without a value; nothing else changes. |
| ObjectCache.DropRefines | chia/base/cache.py:231-233 | A read that finds the file missing or unreadable drops exactly that item. |
| ObjectCache.ShedRefines | chia/base/cache.py:205-209 | Unlinking the evicted prefix's files is shedding the same prefix of the recency list. |
| ObjectCache.WriteRefines | chia/base/cache.py:200-216 | A write that fits the budget is the recency list's write: old entry out, shortest prefix evicted, value last. |
| ObjectCache.WarmStartRefines | chia/base/cache.py:158-178 | Restart round trip: indexing what a coherent cache left on disk gives the same readable items in write order, whatever the new budget. |
| ObjectCache.Cache.constructor | chia/base/cache.py:138-148 | A new actor indexes, of every tag on disk, the latest file in listing order, with the counter equal to the sum of sizes. |
| ObjectCache.Cache.WarmStart | chia/base/cache.py:158-178 | The rebuilding loop keeps the last file of each tag, skips unreadable ones and never evicts. |
| ObjectCache.Cache.Pop | chia/base/cache.py:200-203 | Removes the entry and its bytes from index and counter. |
| ObjectCache.Cache.MakeRoom | chia/base/cache.py:205-209 | The eviction loop leaves exactly the index after shedding the shortest prefix, and unlinks exactly the evicted files. |
| ObjectCache.Cache.Write | chia/base/cache.py:184-216 | On a coherent cache a write is the recency list's write; an item over the whole budget is refused and leaves the older value in place. |
| ObjectCache.Cache.Read | chia/base/cache.py:218-235 | On a coherent cache a read returns and leaves what the recency list's read does. |
| ObjectCache.Cache.Evict | chia/base/cache.py:240-248 | Removes the tag and its file; true exactly when it was indexed. |
| ObjectCache.Cache.Flush | chia/base/cache.py:250-255 | Empties the index, the counter and every indexed file. |
| ObjectCache.ListDirectory | chia/base/cache.py:164-164 | The files in order of modification time, each once. |
| ObjectCache.Drive | chia/base/cache.py:126-255 | For every sequence of operations, losses and restarts, the actor's results, index and total are those of the recency list; its budget is that of the last restart, and each write is answered by whether it fits the budget of its time. |
| Placement.Least | chia/cluster/config.py:988-988 | min() over the pool by load: the first least loaded machine. |
| Placement.PickIsFirstLeast | chia/cluster/config.py:982-988 | The picked machine is in the pool, no machine is less loaded, and every earlier one is more loaded. |
| Placement.TiesGoToTheFirst | chia/cluster/config.py:960-999 | The plan worker by worker, over the types' own lists: the n-th worker of a type is on a compatible worker machine than which no other is less loaded, and every usable one listed before it is more loaded (over all placed so far, or over the type's own for "worker"). |
| Placement.AssignType | chia/cluster/config.py:981-994 | The loop places one type's workers as the specification does and keeps every per-machine counter equal to the workers on it. |
| Placement.AssignNodes | chia/cluster/config.py:960-1013 | The whole loop computes the plan, or the error of the first type that cannot be placed. |
| Placement.FailsIffHomeless | chia/cluster/config.py:996-1006 | Placement fails exactly when some type that wants workers has no compatible machine in the pool, and names the first such type. |
| Placement.PlacesAll | chia/cluster/config.py:987-1006 | Exactly the wanted number of workers is placed, each on a compatible machine of the worker pool with an index below its type's count. |
| Placement.PlanDistinct | chia/cluster/config.py:987-990 | With distinct type names, no two workers have the same machine, type and index. |
| Placement.PlanBalanced | chia/cluster/config.py:960-993 | After each type, a machine that received one of its workers is at most one above every usable one, and no other placement of these workers over the pool has a smaller maximum or a larger minimum load (over all load, or over the type's own for "worker"). |
| Placement.PlanConserves | chia/cluster/config.py:978-993 | The loads of the worker machines add up to the workers asked for. |
| Placement.PlanAllocates | chia/cluster/tailnet.py:363-422 | Placement composed with the tailnet allocator: every placed worker gets exactly one allocation, in order, and the allocations are safe. |
| Packing.FirstFit | chia/cluster/worker_provisioner.py:760-764 | The first instance with enough vCPUs left, or none. |
| Packing.Roomiest | chia/cluster/worker_provisioner.py:766-766 | The first of the instances with the most vCPUs left. |
| Packing.Packer.Assign | chia/cluster/worker_provisioner.py:759-768 | Places one worker on the first instance with room, or if there is none on the first with the most left, and changes nothing else; fails exactly when there is no instance. |
| Packing.Provision | chia/cluster/worker_provisioner.py:692-773 | Instance count and packing of a whole call, with its two failures: a division by zero and workers without instances. |
| Packing.InstancesLaunched | chia/cluster/worker_provisioner.py:692-703 | How many instances a call launches: the fewest that hold the workers at the given number each, or at least one and the fewest with CPUs enough; and exactly when it fails, by which error. |
| Packing.PlacedExactlyOnce | chia/cluster/worker_provisioner.py:756-773 | Whatever the sizes and the count, the workers on the instances are exactly those requested, each once. |
| Packing.CpusConserved | chia/cluster/worker_provisioner.py:757-768 | Remaining plus assigned CPUs is the capacity of every instance. |
| Packing.OverloadBound | chia/cluster/worker_provisioner.py:692-773 | With the count computed from CPUs, no instance's load exceeds its vCPUs by as much as one worker: load <= vCPUs + max(build, sim) - 1. |
| Packing.OverloadReached | chia/cluster/worker_provisioner.py:765-768 | The bound is attained: three 2-CPU workers on 3-vCPU instances overload the first by one. |
| Packing.DivisibleFits | chia/cluster/worker_provisioner.py:692-773 | When the simulation size divides the build size and that divides the vCPUs, nothing is overloaded. |
| Packing.OneSizeExact | chia/cluster/worker_provisioner.py:692-773 | When all workers, of either kind or both, have one size, some instance is overloaded exactly when there are more workers than instances times floor(vCPUs/size). |
| Instances.PickIndexes | chia/cluster/aws_nodes.py:487-498 | The picking loop ends, for any indexes in use, with the specified picks. |
| Instances.PicksAreSmallest | chia/cluster/aws_nodes.py:492-497 | The picks are ascending and are exactly the unused naturals below some bound: the smallest ones. |
| Instances.FillsWanted | chia/cluster/aws_nodes.py:488-498 | The picks complete the wanted indexes exactly when the indexes in use are all wanted, or are all that is wanted. |
| Instances.SortIsStable | chia/cluster/aws_nodes.py:546-547 | Sorting orders by index and keeps the entries of each index, in their order. |
| Instances.PositionIsIndex | chia/cluster/aws_nodes.py:487-548 | For every wanted i, the merged list's i-th entry is the instance tagged i, exactly when no index is negative, none but the last wanted one and those beyond repeats, and the indexes in use are all wanted or all that is wanted. |
| Instances.StrayTagDisplaces | chia/cluster/aws_nodes.py:487-548 | A concrete case where position is not index: with the instance 5 running and three wanted, position 2 is the instance tagged 5. |
| Instances.LaunchJob | chia/cluster/aws_nodes.py:507-524 | Launches one type's indexes in order until something fails. |
| Instances.LaunchJobs | chia/cluster/aws_nodes.py:506-529 | Succeeds exactly when every subnet and launch does; otherwise everything launched in this call, and nothing else, is terminated. |
| Instances.CollectIps | chia/cluster/aws_nodes.py:553-584 | The address the cloud gives each instance, in launch order; fails exactly when an instance has none. |
| Instances.ProvisionMissing | chia/cluster/aws_nodes.py:464-550 | The whole call, with the exact condition of each outcome: it succeeds exactly when nothing is missing or the connection is ready, every launch succeeds and every launched instance gets an address; what is launched, terminated and left running in each case; and what is merged and returned. On success with distinct names, every launched instance's own address stands at its pick's place in the new map and at its rank by tag in the full one, and every discovered entry keeps its address at its rank. |
| Instances.TypeServed | chia/cluster/aws_nodes.py:531-550 | That, for one type: both maps hold the type exactly when they should, with as many entries, and place by place the address of the instance with that tag. |
| Instances.RankIsTag | chia/cluster/aws_nodes.py:487-548 | Where the discovered instances allow it, the first instance of each wanted tag has the tag itself for its rank. |
| Instances.LaunchedAre | chia/cluster/aws_nodes.py:506-529 | What is launched, and terminated on failure: every instance whose job is reached and which no failure precedes. |
| Instances.MergedFor | chia/cluster/aws_nodes.py:535-543 | With distinct names, what is merged for a type is its own instances followed by those launched for it. |
| Instances.ReferencesResolve | chia/cluster/config.py:445-461 | `@name:i` resolves to the address of the instance tagged i for every wanted i, exactly under the condition above, and otherwise fails exactly past the end. |
| Tailnet.HeadPortsAre | chia/cluster/tailnet.py:236-240 | The head's port list holds exactly its GCS, manager, worker and tool ports. |
| Tailnet.Alloc.PortsAre | chia/cluster/tailnet.py:230-233 | A worker's port list holds exactly its managers, tools and worker ports. |
| Tailnet.AllocateOne | chia/cluster/tailnet.py:387-416 | One participant's allocation, or the first of the refusals in the code's order. |
| Tailnet.AllocateTailnetWorkers | chia/cluster/tailnet.py:336-422 | Succeeds exactly when neither the configuration nor any participant is refused, and then the j-th participant gets the j-th address and its machine's next block. With distinct keys every field of every allocation is stated by how many participants come before it, on its machine and anywhere; an error is the first reason there is at the first participant refused. |
| Tailnet.AllocationSafe | chia/cluster/tailnet.py:365-422 | Advertise addresses are pairwise distinct, never the head's nor 127.0.0.1; ports of participants on one machine, head included, are disjoint and at most 65535. |
| Tailnet.DefaultCapacity | chia/cluster/config.py:113-135 | With the defaults and at most 13,107,199 workers, allocation succeeds exactly when no machine has more than 162. |
| Relay.BuildRelaySpec | chia/cluster/tailnet.py:425-491 | The two loops fill exactly the specified listeners and routes. |
| Relay.SocketsAre | chia/cluster/tailnet.py:464-488 | A machine's relay listens exactly on the CONNECT port, the head's tools and every worker's tools: on 127.0.0.1 for its own, on the advertise address for others. |
| Relay.ClashFree | chia/cluster/tailnet.py:464-488 | No machine has two listeners on one address and port when no local tool port is the proxy's. |
| Relay.ClashIffProxyTaken | chia/cluster/tailnet.py:464-488 | For safe allocations that condition is exact. |
| Relay.ToolPortClashes | chia/cluster/tailnet.py:464-488 | A concrete safe allocation where the relay's listeners clash: the CONNECT proxy on one of the head's tool ports. |
| Relay.RelayUpIff | chia/cluster/tailnet.py:170-180 | Exactly when a machine's relay can bind all its listeners beside tailscaled's two and start: the CONNECT proxy's port is not tailscaled's, and no participant of the machine has a tool on any of the three ports. |
| Relay.SocksPortClashes | chia/cluster/tailnet.py:243-246 | A concrete safe allocation where it cannot: tailscaled's SOCKS proxy on one of the head's tool ports. |
| Relay.ToolHandler | chia/cluster/tailnet.py:148-160 | A relay that is up forwards a dial to a participant's tool to its machine, and bridges what arrives there at 127.0.0.1. |
| Relay.ArrivalDelivered | chia/cluster/tailnet.py:121-132 | What arrives at 127.0.0.1 on a participant's port is handed to it exactly unless tailscaled has the port, or the CONNECT proxy of a relay that is up, or it is a tool port and the relay is down; then it reaches nobody. |
| Relay.ReachesOne | chia/cluster/tailnet.py:95-160 | A connection ends at one participant at most. |
| Relay.ToolDelivery | chia/cluster/tailnet.py:425-491 | From every machine, a dial to a participant's advertised tool port reaches it over at most two relay hops exactly if it is made on the participant's own machine or both machines' relays are up, and nobody else if the dialling one's is. |
| Relay.TargetRoundTrip | chia/cluster/tailnet.py:116-117 | The CONNECT request's host and port are read back from its text (section 9.3.6 of RFC 9110). |
| Relay.RouteOf | chia/cluster/tailnet.py:456-462 | Every participant's advertise address is routed to its machine's tailnet address, or locally on its own machine. |
| Relay.ConnectDelivery | chia/cluster/tailnet.py:95-145 | From every machine, a CONNECT to any port of a participant reaches it over at most two hops, exactly if the relay there is up and the port gets what arrives, and never reaches anyone else; with all relays up, exactly unless the port is the CONNECT proxy's, tailscaled's SOCKS proxy's or its HTTP proxy's. |
| Relay.GcsPortUnreachable | chia/cluster/tailnet.py:95-145 | Two concrete networks, the proxy on the head's GCS port and that port on tailscaled's SOCKS port, for which the hypotheses hold, the relay's own listeners are free of clashes, and a CONNECT to that port reaches nobody over any number of hops. |
| Deployment.PlanDelivers | chia/cluster/tailnet.py:363-491 | From the configuration to delivery: when placement succeeds and the allocator accepts it, every planned worker has its row, each relay starts exactly under the condition on the three ports, and from every machine the tools and ports of every participant are delivered to it alone, exactly as far as the relays are up and the port is none of the three. |
| Deployment.DefaultDelivers | chia/cluster/config.py:85-136 | With the default ports none of the three is hit: every relay starts and everything is delivered. |
| Tunnels.AllocateWorkerTunnels | chia/cluster/node_setup.py:318-371 | The loop computes the specified settings and fails exactly when the addresses run out; with distinct keys every field of every tunneled worker's settings is stated by how many tunneled workers come before it, on its machine and anywhere. |
| Tunnels.ConfigsAre | chia/cluster/node_setup.py:342-365 | With distinct keys, the j-th tunneled worker has the j-th address and tool range and its machine's next port blocks. |
| Tunnels.ConfigsOnly | chia/cluster/node_setup.py:333-342 | Exactly the tunneled workers have settings. |
| Tunnels.TunnelIpsDistinct | chia/cluster/node_setup.py:338-369 | Tunnel addresses are pairwise distinct and never 127.0.0.1. |
| Tunnels.WorkerRangesMeet | chia/cluster/node_setup.py:347-360 | Two worker ranges on a machine meet exactly when they are longer than 1000 times the workers' distance; up to 1000 ports they never do. |
| Tunnels.ToolRangesMeet | chia/cluster/node_setup.py:351-362 | With one base, two tool ranges meet exactly when they are longer than 100 times the workers' distance; up to 100 ports they never do. |
| Tunnels.DefaultCapacity | chia/cluster/config.py:32-46 | With the defaults, all ports avoid each other and the head's and are at most 65535 exactly when there are at most 118 tunneled workers, at most 10 on any machine. |
| Tunnels.GcsAddressesDiffer | chia/cluster/node_setup.py:880-881 | Two tunneled workers never have equal normalised GCS addresses. |
| Tunnels.StopsOneWorker | chia/cluster/ray_stop.py:269-356 | On one process table, whatever stopping one tunneled worker signals, by SIGTERM or SIGKILL, gently or by force, stopping another one does not signal in any way. |
| Addresses.RoundTrip | chia/cluster/ray_stop.py:156-184 | A printed address is parsed back into its host and port exactly under a condition on the two texts, for every host (IPv6 literals of section 3.2.2 of RFC 3986 included) and every port. |
| Addresses.NormalizedWellFormed | chia/cluster/ray_stop.py:220-242 | Normalising keeps a well-formed address well-formed. |
| Addresses.SameIffHostsAndPorts | chia/cluster/ray_stop.py:240-248 | Two well-formed addresses compare equal exactly when their hosts resolve alike and their ports are the same text. |
| Addresses.NormalizeDotted | chia/cluster/ray_stop.py:226-232 | A dotted address other than 127.0.0.1 stands for itself, tunnel loopbacks included. |
| Addresses.HostMeans | chia/cluster/ray_stop.py:187-237 | A host stripped of blanks and in small letters stands for the machine's own address if it is localhost, 127.0.0.1 or ::1, for itself if it is an IPv4 address, else for what is looked up, or itself. |
| Addresses.NormalizeTwice | chia/cluster/ray_stop.py:156-242 | For every text: normalising twice is normalising once exactly if, when the printed host and port can be read back, the host is not 127.0.0.1 on a machine with another address, and, when they cannot, host and port together open with another bracketed host that has a colon and stands for itself. |
| Addresses.PlainTwice | chia/cluster/ray_stop.py:156-242 | For every text whose parsed host and port hold no brackets: exactly unless the host is 127.0.0.1 on a machine with another address, or the port holds a colon and the host none. |
| Addresses.SettledIff | chia/cluster/ray_stop.py:156-242 | A text is left alone by normalising exactly when it is printed from a host and a port that parse back, the host resolving to itself. |
| Addresses.ReadableSettles | chia/cluster/ray_stop.py:220-242 | If the printed host and port can be read back, the second pass settles. |
| Addresses.PlainSettles | chia/cluster/ray_stop.py:156-242 | Every text whose parsed host and port hold no brackets settles by the third pass. |
| Addresses.NeverSettles | chia/cluster/ray_stop.py:174-242 | A text with an opening bracket, no closing one and two colons, unknown to the resolver, grows by five characters at every pass. |
| Addresses.MalformedSettlesLate | chia/cluster/ray_stop.py:174-184 | A concrete text that the second pass changes again and the third leaves alone. |
| ScopedStop.MatchBucket | chia/cluster/ray_stop.py:313-331 | The matched pids are each once and are exactly those of processes matching a keyword and attributed to a target. |
| ScopedStop.SelectiveRayStop | chia/cluster/ray_stop.py:269-356 | The three buckets in order, with the signals, waits and totals of each. |
| ScopedStop.SignalledExactly | chia/cluster/ray_stop.py:313-354 | A pid is signalled exactly when it is a Ray process whose extracted GCS address equals a target, and killed exactly when forced or outliving its wait. |
| ScopedStop.FoundIffSignalled | chia/cluster/ray_stop.py:333-356 | The reported count is positive exactly when something is signalled. |
| ScopedStop.RayletsFirst | chia/cluster/ray_stop.py:293-354 | Every signal to a process matched only as gcs_server comes after each matched raylet was signalled and waited for. |
| ScopedStop.CountForeignRayProcesses | chia/cluster/ray_stop.py:359-398 | Counts the pids whose first Ray entry belongs to some cluster but to none of the targets. |
| ScopedStop.ForeignNeverSignalled | chia/cluster/ray_stop.py:359-398 | On one snapshot nothing counted as another cluster's is ever signalled. |
| CommandLines.ExtractsWhatIsCarried | chia/cluster/ray_stop.py:84-148 | Which address is read off a command line, over positions of words: the first value of the option, with two dashes or else one, in the same word or the next; the Java property; the client server's `--address`; a gcs_server's host and port; the first of these shapes counts, and nothing is read exactly if there is none. |
| CommandLines.StopSignals | chia/cluster/ray_stop.py:269-356 | A pid is signalled exactly if it is that of a Ray process whose command line carries, in that sense, an address equal to a target. |
| CommandLines.ForeignIff | chia/cluster/ray_stop.py:359-398 | What counts as another cluster's: of each pid the first entry that is a Ray process, if its command line carries an address, and one that equals no target's. |
| CommandLines.GcsServerStopped | chia/cluster/ray_stop.py:141-146 | A gcs_server started with a target's host and port is signalled. |
| CommandLines.GcsServerStoppedExample | chia/cluster/ray_stop.py:141-146 | The same with a command line's values. |
| CommandLines.TotalsAre | chia/cluster/ray_stop.py:333-356 | The totals: per bucket the number of its pids, and of those that exit within its wait. |
| BringUp.BuildWorkerScript | chia/cluster/node_setup.py:473-575 | Read off the script alone: which variables it sets and to what, for relayed, tunneled and direct workers; the commands that stay are those not left out, in their order; and a finished start command keeps its words, carries its resources, the address for the placeholder, and as its last such options the node address and the four port options of the allocation or tunnel. |
| Teardown.StartDials | chia/cluster/node_setup.py:547-573 | What a finished start command dials, for every command whose last address option names the head by the variable and any port, or gives an address of its own: the head's address and that port, with the access's GCS port in place of a leading 6379 (even of 63790) where a relayed or tunneled worker's flag and address are one word. |
| Teardown.ScriptDials | chia/cluster/node_setup.py:507-575 | Running the script, the start commands it keeps dial exactly that, each by its own option. |
| Teardown.UpDownAgreement | chia/cluster/node_setup.py:862-882 | Teardown recomputes exactly the dialled address if and only if the port named is the one it looks for: for a direct worker the head's; for a tunneled one 6379, or, unrewritten, the tunnel's; for a relayed one the head's, or 6379 with equal GCS ports, and on the head machine an advertised address equal to the head's own. |
| Teardown.TeardownFindsWorker | chia/cluster/node_setup.py:862-882 | End to end: every address the script dials is the one teardown looks for, exactly if each start command that stays meets that condition. |
| Teardown.OtherPortFound | chia/cluster/test/down/cluster_b.yaml:46-49 | In a cluster on port 6378 a direct worker, whose command nothing rewrites, dials what teardown looks for. |
| Teardown.OtherPortMissesTunnel | chia/cluster/node_setup.py:559-573 | Behind a tunnel with the default settings the same command is not rewritten either, and dials a port that is not the one teardown looks for. |
| Teardown.ColocatedMissed | chia/cluster/node_setup.py:875-882 | A relayed worker on the head machine is attributed to its own stop's target exactly when the two addresses resolve alike. |
| Teardown.DefaultHeadMissesColocated | chia/cluster/node_setup.py:875-882 | A concrete configuration where it fails: a head at 10.0.0.1 with the default advertised address, whatever the resolver. |
| Teardown.HeadStopFinds | chia/cluster/node_setup.py:885-890 | The head's own stop, which targets the advertised address, does attribute it. |
| Reconcile.ComputeNewAssignments | chia/cluster/node_setup.py:69-161 | The result are the desired workers, in order, that at least as many like them come before as nodes like them are alive; alike means one resolved address and equal custom resources, that is all but Ray's own four kinds. |
| Reconcile.AddsExactlyTheDifference | chia/cluster/node_setup.py:138-159 | Per key, the new workers are the desired ones minus the nodes alive, or none: multiset subtraction. |
| Reconcile.KeepsOrder | chia/cluster/node_setup.py:145-159 | The result is a subsequence: the desired workers preceded by at least as many of their key as nodes are alive. |
| Reconcile.RegisteredKeys | chia/cluster/node_setup.py:69-84 | Nodes registered for workers, with whatever automatic resources Ray adds, count under exactly those workers' keys. |
| Reconcile.RerunAddsNothing | chia/cluster/node_setup.py:122-161 | Once the new workers have registered, the next call adds nothing. |
| PidRegistry.Registry.Register | chia/base/pid_registry.py:51-52 | Appends the triple to its task's list. |
| PidRegistry.Registry.Unregister | chia/base/pid_registry.py:54-55 | Forgets the task. |
| PidRegistry.Registry.GetAndRemove | chia/base/pid_registry.py:57-58 | Returns the task's triples and forgets it. |
| PidRegistry.Registry.TakeAll | chia/base/pid_registry.py:69-72 | Returns every triple and forgets all. |
| PidRegistry.Conservation | chia/base/pid_registry.py:51-73 | Over any interleaving every registration is accounted for exactly once: tracked, dropped, or handed to a killer. |
| PidRegistry.RegisteredOnce | chia/base/pid_registry.py:57-73 | A triple registered once is in exactly one of the three places, and handed to one killer at most. |
| PidRegistry.WorkersAreTidy | chia/base/pid_registry.py:233-250 | Whatever a worker's threads do, and however often a task's scope is nested or entered again, its last exit sends its unregister, and nothing is registered for the task after that. |
| PidRegistry.NothingSurvivesUnregister | chia/base/pid_registry.py:394-401 | With ordered delivery per sender and any interleaving between senders, no entry of a task survives the delivery of an unregister that its sender never follows with another registration of it. |
| PidRegistry.ScopesLeaveNothing | chia/base/pid_registry.py:359-401 | The same, from what the threads do to what the registry holds: once the message of the task's last exit is in, nothing is held for it. |
| ProcessKill.WaitForDeath | chia/base/pid_registry.py:311-330 | The polling loop ends and returns exactly the targets alive at every poll, at the first poll where none is left or the deadline has passed. |
| ProcessKill.LastingIs | chia/base/pid_registry.py:325-326 | The survivors are exactly the targets seen alive at every poll. |
| ProcessKill.WaitIsExact | chia/base/pid_registry.py:323-330 | With permanent death: at most ceil(grace/interval) sleeps, the survivors are those alive at the last poll, and there are none unless the deadline has passed. |
| ProcessKill.KillLocalPids | chia/base/pid_registry.py:343-356 | SIGTERM to every target in order, then SIGKILL to each target that was reached and is left when waiting ends. |
| ProcessKill.KillPid | chia/base/pid_registry.py:409-424 | The remote variant sends what the local one sends for a single target. |
| ProcessKill.KilledExactly | chia/base/pid_registry.py:343-356 | Every target is sent SIGTERM; SIGKILL goes to exactly those it reached that were alive at every poll up to the one at the deadline; with permanent death, to those still alive then. |
| ProcessKill.KilledProcesses | chia/base/pid_registry.py:283-356 | The same over the processes /proc shows: SIGKILL goes to exactly those reached of which at every poll a process was there that was no zombie, for a group any member. |
| ProcTable.StatRoundTrip | chia/base/pid_registry.py:261-280 | State and group are read back from a process's line whatever its name, parentheses and blanks included. |
| ProcTable.IsRunning | chia/base/pid_registry.py:283-308 | A process counts as running exactly if it is there and no zombie, a group exactly if one of its members is. |
| ProcTable.RunningIffLives | chia/base/pid_registry.py:283-308 | The specification of that agrees with the processes behind the lines. |
| ChiaWait.TrackedRef.RetryStuck | chia/base/chia_wait.py:322-331 | Takes the new reference and time and counts one retry. |
| ChiaWait.ClassifyStuck | chia/base/chia_wait.py:195-254 | The lists and filters give the specified stuck references, in row order. |
| ChiaWait.ChiaWait | chia/base/chia_wait.py:95-157 | Returns the two lists and changes the tracked fields exactly as specified, on shared objects. |
| ChiaWait.SplitByIdentity | chia/base/chia_wait.py:98-105 | For distinct references every tracked object comes back exactly once, as ready or as pending. |
| ChiaWait.StuckIs | chia/base/chia_wait.py:195-254 | How often a reference counts as stuck, exactly: once for every row of its task whose resources are available and underused and, if that is asked for and can be told, not in the reported demand (by the task's first row), provided every query answers and it is the last reference of its task pending beyond the timeout; otherwise never. |
| ChiaWait.CallIsSafe | chia/base/chia_wait.py:107-157 | One call, exactly: a reference is resubmitted as often as it counts as stuck, but only if retrying is on and it can be resubmitted, and only up to the limit; its retry count grows by just that; one that is not resubmitted is untouched, and one that is was pending. |
| ChiaWait.ActionsAre | chia/base/chia_wait.py:107-157 | Action by action: a resubmission comes right after cancelling what was held, what is held at the end is what the last one gave, at its time, and the number of cancellations is that of stuck entries, or, unless cancelling is asked for, of resubmissions. |
| ChiaWait.RunsAreBounded | chia/base/chia_wait.py:116-157 | Over any sequence of calls in any groups, a reference is resubmitted at most as often as its remaining retries. |
| ChiaWait.RepeatedRowRetriesTwice | chia/base/chia_wait.py:221-227 | A row reported twice costs two resubmissions in one call. |
| ChiaWait.RepeatedRowExample | chia/base/chia_wait.py:221-227 | The same with concrete values: one task, its row twice, two references submitted and the first cancelled. |
| Dispatch.NodeCache.AliveNodes | chia/base/dispatch_proxy.py:84-96 | The snapshot is what was alive at a moment less than five seconds ago. |
| Dispatch.ProxiesIff | chia/base/dispatch_proxy.py:99-205 | The whole decision: relayed unless on the head, or pinned hard to a node in reach, or asking for resources that some node has with all that have them in reach; in reach are the node itself and, from a LAN machine, those last listed as not tunneled. |
| Dispatch.DirectIsSafe | chia/base/dispatch_proxy.py:116-180 | "Direct" implies a direct link to every alive node where a task can land: for a hard pin with any stale snapshot whose roles still hold, for a resource demand if the snapshot covers the nodes that offer it. |
| Dispatch.CachedDecisionSafe | chia/base/dispatch_proxy.py:84-205 | The same for a decision taken from the cache and used later. |
| Dispatch.DirectIsExact | chia/base/dispatch_proxy.py:84-180 | When a "direct" taken on a stale snapshot is right, exactly, for every caller: every alive node where the task can land, other than the caller and outside the expected targets, is anything for the head, not tunneled for a LAN machine, and the head for a tunneled worker. |
| Dispatch.FreshIsExact | chia/base/dispatch_proxy.py:116-180 | With an up-to-date snapshot and known targets, "direct" holds exactly when every target is linked, except that a tunneled worker relays even to the head. |
| Dispatch.StaleSnapshotMisleads | chia/base/dispatch_proxy.py:84-96 | A tunneled node that joined after the snapshot makes a resource-based "direct" wrong. |
| Dispatch.StaleSnapshotExample | chia/base/dispatch_proxy.py:84-96 | The same with three concrete machines. |

## Left out

- ObjectCache.Drive: a warm start over foreign pickles is covered by the constructor and `KeepLatest` only; runs start from a directory the cache itself wrote.
- ObjectCache.Cache.Write: exceptions while pickling or writing a file are not modelled; the length of a pickle is a function of tag and value.
- ObjectCache.Cache.WarmStart: the directory holds the `*.pkl` files only, and equal modification times do not occur.
- Packing.Provision: ceilings are exact integers where the code divides floats; instances that fall back to another type are packed with the preferred type's vCPUs, as in the code.
- Instances.ReferencesResolve: the placeholder is a name and an index already; finding `@name:N` inside larger text is not modelled.
- Relay.ToolDelivery: assumes what configuration does not verify: one tailnet address per machine and a head advertise address other than 127.0.0.1 (`Relay.Deployable`). Byte pumping and timeouts are not modelled.
- Relay.RelayUpIff: Ray's own sockets are not among the ones a relay must bind beside; where a Ray port is one of the three ports, one of the two binds fails at bring-up, and the model only says that the port is not delivered. tailscaled is taken to have its HTTP proxy on the port after its SOCKS proxy's, on 127.0.0.1.
- Deployment.PlanDelivers: makes the same assumptions.
- Relay.TargetRoundTrip: ports are decimal digits; the other texts Python's `int` accepts are refused.
- Relay.SocketsAre: overlapping ranges within the head's own configuration count as tool ports.
- Addresses.RoundTrip: lower-casing covers ASCII; blank-stripping covers all the blanks Python strips.
- Addresses.SameIffHostsAndPorts: assumes a resolver that recognises dotted quads and answers with them.
- ScopedStop.SelectiveRayStop: the process table is one snapshot with names and command lines; whether a process exits within its batch's wait is an oracle; access errors of single processes are not modelled.
- BringUp.BuildWorkerScript: commands are lists of words, and replacing the placeholder inside a word stands for replacing it in the text, since it holds no blank.
- Teardown.ScriptDials: start commands name the head by `$RAY_HEAD_IP:` and a port without a colon, or give an address without `$`; other shell forms of the variable, quotes and a bare `--address` at the end are not covered, nor are host addresses with `$`. Of several address options the last counts, as on Ray's command line.
- Reconcile.ComputeNewAssignments: resource amounts are exact reals.
- PidRegistry.NothingSurvivesUnregister: assumes Ray's ordered delivery from one worker to one actor, and that a task runs on one thread of one worker.
- PidRegistry.Registry.TakeAll: dispatching one remote kill per entry and waiting for them is not part of the registry's state.
- ProcTable.StatRoundTrip: entries of /proc that are not numbers are left out, and of the texts Python's `int` accepts only digits after at most a minus sign.
- CommandLines.StopSignals: keywords hold no blanks, as in Ray's list.
- CommandLines.GcsServerStopped: the executable's name does not start with a dash.
- ProcessKill.WaitForDeath: time is in ticks, and each sleep lasts at least the poll interval.
- ChiaWait.ChiaWait: a resubmission that raises is not modelled; identities are positions in the list.
- ChiaWait.StuckIs: the demand text is a predicate on resource names.
- Dispatch.DirectIsSafe: on the paths that skip the analysis (several return values, a failing query) the code dispatches directly or by the environment alone, and no link is promised.
- Tailnet.AllocateTailnetWorkers: the step over 127.0.0.1 is unreachable when counting up from 127.0.0.2, and is shown to be.
- Google Cloud provisioning repeats the EC2 index logic.
- Ray, boto3, SSH, rsync and Docker calls, configuration parsing, logging, and the chip-design nodes around `make` and simulators.
