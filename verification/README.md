# Verification of the router

This project models the stateful core of the router in Dafny and proves what it promises: the ARP wait
queue with its delta-list timer, the open-addressing hash table, the NAPT tables, the checksum rewrite, the
device table, the choice of interfaces, and the DHCP leases and options. `dafny verify dfyconfig.toml`
checks all of it.

## How the model is built

- `DeltaQueue` describes each region of `timer.c` that runs under `timer_mutex` as a function on values;
  `DeltaQueueSafety` and `DeltaQueueRuns` prove what single steps and whole runs keep, `DeltaQueueEffects`
  what each operation does to each destination. `DeltaTimer` is the linked list itself, relinked in place;
  each of its methods is proved equal to the function.
- `FlatLayout` is the byte block of `hashmap.c` (packed two-bit tags, then keys and values), `ProbeTable`
  linear probing with graves on slots, `HashTable` the class over one byte array, `UnwrappedCleanUp`
  and `CodedRemoval` are `hashmap_remove` to the letter, `CodedGrowth` is `hashmap_insert` with its growth to
  the letter, `HashMapRuns` whole runs.
- `Napt` are the two tables as maps, `NaptTables` the same tables stored byte by byte in two hash tables,
  `NaptGrowth` what growth to the letter does to them, `NaptProtocol` the interface threads with every lock
  operation and table access as a step of its own, `NaptAlone` one of them undisturbed, `Ipv4` the rewriting
  of packets, `Forwarding` what `ipv4_handle` does with each arriving packet.
- `Checksum` is one's-complement arithmetic against RFC 1071, `Outgoing` the rewrite of `send_ipv4` on
  packet bytes, `PaddingByte` the one byte more that the text overwrites, `Router` the path from `send_ipv4`
  and `arp_handle` through the queue to the wire, `SendProtocol` the same path taken by many threads at once.
- `Devices`, `Interfaces`, `DhcpLeases` and `DhcpOptions` follow the files of the same names.

A timer is its `it_value` in nanoseconds (0 is disarmed) plus a flag for a SIGALRM on its way. An expired
timer runs its handler before more time passes; re-arming does not recall a signal already on its way;
a tick may come at any time, also early or with nothing due. A packet is the seq of the bytes its total
length covers. Random ports, clock readings and received packets are parameters. Bytes are integers below
256; shifts and masks on them are written as divisions and remainders.

## Where the code does not do what it is for

Where the model follows the code, a lemma or method says exactly when the code is right; where it follows
what is meant instead, that is said here.

- `timer_update_packets` reads only the nanosecond part of the running timer. Resolving the head keeps the
  wait queue alive if and only if the timer does not show exactly whole seconds before a successor without
  delay of its own (`DeltaQueueSafety.ResolveKeepsInvIff`); the failing corner is reachable
  (`DeltaQueueRuns.StallIsReachable`).
- `hashmap_grow` visits only whole tag bytes of the old block and reads keys and values from the new, zeroed
  block. `hashmap_insert` therefore inserts if and only if the guard of its growth branch is false
  (`HashTable.HashMap.InsertAsCoded`), and the NAPT tables are what they are meant to be if and only if at
  most five mappings were to be created (`NaptGrowth.CodedTablesAgreeIff`). The rest of the project uses growth as it is meant
  (`HashTable.HashMap.Grow`).
- `hashmap_remove` compares against other bytes than the key, except by coincidence
  (`FlatLayout.RemoveLooksRightIff`), and does not wrap its indices. `Remove` is the removal that is meant;
  the one to the letter (`HashTable.HashMap.RemoveAsCoded`) does the same exactly under
  `CodedRemoval.CodedRemoveIsMeantIff`, and does not remove a lone key with home 2 or more unless it is all
  zeros (`CodedRemoval.LoneKeyStaysIff`).
  The clean-up as written (`HashTable.HashMap.CleanUpAsCoded`) is the meant one exactly under
  `UnwrappedCleanUp.CodedCleanUpIsMeantIff`. It stays in the block and keeps every key within reach exactly
  when, having found an empty tag, it does not run into slot 0 and, from the last slot, no chain runs past
  the end (`UnwrappedCleanUp.CodedCleanUpKeepsTableIff`). One key with home 0, inserted and removed, is
  enough to make it leave the block.
- `hashmap_get` releases the table's mutex on a hit, and `napt_out_handle` keeps the internal table locked
  when it gives up. `NaptProtocol` has the releases that are meant. Under the releases as written the locks
  are sound along a run if and only if no lookup finds its key and nobody gives up
  (`NaptLocksAsCoded.LocksAgreeAlongIff`), and a run ends with the internal table locked for good if and only
  if somebody gave up while no other thread was inside it (`NaptLocksAsCoded.RunLeaksIff`). Runs from the
  start come to a half mapping that is looked up, and to the leak.
- `calculate_checksum` stores a zero behind an odd number of bytes. Behind a UDP segment shorter than its
  packet that byte belongs to the packet; `PaddingByte.AsCodedAgreesIff` says exactly when it matters. With a
  UDP length of 5 it is the low byte of the length field, and rewriting twice is then not rewriting once
  (`PaddingByte.AsCodedIsIdempotentIff`). Everywhere else the byte is virtual.
- The internal NAPT key does not name the remote, so a reused mapping has a way back only from the remote it
  was created for (`Napt.ReplyReturnsIff`).
- `create_subnet_mask` stops after three bytes: its masks are right exactly up to length 24
  (`Interfaces.PrefixLenInvertsMask`), and `prefix_len_get` returns nothing for 255.255.255.255.
- `is_ip_in_pool` compares raw words and accepts addresses outside the pool; it is right exactly for the
  addresses named by `DhcpLeases.PoolCheckAcceptsTooMuch`. Requests are nevertheless acknowledged exactly
  when a live lease exists (`DhcpLeases.AckedIffLive`).
- An acknowledgement announces the lease for another 18000 seconds but does not extend it in the table, where
  it was entered for 180000. The address stays reserved for the announced time if and only if the lease is
  at most 162000 seconds old (`DhcpLeases.AckIsKeptIff`, `DhcpLeases.NewLeaseIsKeptIff`).

## Model

| member | source | states |
|---|---|---|
| DeltaTimer.Timer.TimerAddPacket | router/src/timer.c:205-273 | in place on the linked list: the packet joins its destination's node or a new last node that is due one second after the list's start; the list stays acyclic |
| DeltaTimer.Timer.AddNode | router/src/timer.c:228-271 | the new node, its ARP request and the timer start for an empty list |
| DeltaTimer.Timer.ScanFor | router/src/timer.c:208-225 | finds the first node of a destination or else the sum of all deltas |
| DeltaTimer.Timer.LinkLast | router/src/timer.c:119-128 | the pointer walk appends one node and changes no other |
| DeltaTimer.Timer.TimerUpdatePackets | router/src/timer.c:155-203 | unlinks the destination's node and hands back exactly its packets in order; absent destinations change nothing |
| DeltaTimer.Timer.UnlinkNode | router/src/timer.c:183-185 | the list without the node, whose delta goes to its successor |
| DeltaTimer.Timer.Rearm | router/src/timer.c:162-182 | timer value after the head leaves, from the nanosecond part only |
| DeltaTimer.Timer.TimerHandler | router/src/timer.c:74-153 | the handler as a whole refines the tick of the state machine, also when it runs early or late |
| DeltaTimer.Timer.DrainDue | router/src/timer.c:81-130 | the loop that re-appends to the list it consumes terminates and refines its functional form |
| DeltaTimer.Timer.TotalTime | router/src/timer.c:118-123 | the pointer walk sums the deltas |
| DeltaTimer.Timer.ArmForHead | router/src/timer.c:132-150 | disarmed for an empty list, else the head's delay |
| DeltaQueueSafety.DrainHandlesEachDueNodeOnce | router/src/timer.c:80-130 | when the deltas sum to at most a second, a tick handles exactly the nodes due at its start, each once, in closed form |
| DeltaQueueEffects.AddEffect | router/src/timer.c:205-273 | a packet joins the others of its destination at the end and changes nothing else; a new destination is due one second after the last timer start, and is asked for exactly once, on the given interface |
| DeltaQueueEffects.AddSparesOthers | router/src/timer.c:205-273 | other destinations keep packets, retries, due times and requests |
| DeltaQueueEffects.ResolvedIsQueued | router/src/timer.c:183-201 | what is handed back is exactly what waited, in that order, and is logged so |
| DeltaQueueEffects.ResolveSparesOthers | router/src/timer.c:155-191 | other destinations keep packets and retries, and their due times exactly, but for the whole seconds that are not read when the head leaves |
| DeltaQueueEffects.TickEffect | router/src/timer.c:74-153 | exactly the destinations due with the head are handled: on the first try asked for once more on their longest-prefix interface and due again in exactly a second, on the second try given up; the others keep packets, retries and distance |
| DeltaQueueEffects.TickAddsNobody | router/src/timer.c:74-153 | nobody else is asked for or waits afterwards |
| DeltaQueueEffects.WaitEffect | router/src/timer.c:132-150 | time brings every due time nearer by itself, and the handler at zero |
| DeltaQueueEffects.RunHandsOnInOrder | router/src/timer.c:74-273 | over every run, what is handed back or given up for a destination, followed by what waits, is what was given for it, in order |
| DeltaQueueSafety.AddKeepsInv | router/src/timer.c:205-273 | adding keeps distinct destinations, non-empty packet lists, delta sum at most 1000 and a running timer |
| DeltaQueueSafety.ResolveKeepsInvIff | router/src/timer.c:155-191 | resolving keeps all that if and only if it is not the whole-second corner |
| DeltaQueueSafety.TickKeepsInv | router/src/timer.c:74-153 | a tick at any time keeps it and leaves an empty list or a head with positive delay |
| DeltaQueueSafety.NextKeepsInvIff | router/src/timer.c:74-273 | every step keeps the invariant except exactly the stalling one |
| DeltaQueueSafety.DueWithinASecond | router/src/timer.c:118-128 | every node is due within 1000 ms |
| DeltaQueueSafety.NoClampNoOverflow | router/src/timer.c:142-145 | the clamps never bind and the 32-bit products stay below 2^31 |
| DeltaQueueSafety.UnlinkTotal | router/src/timer.c:183-185 | unlinking keeps the delta sum except for the last node |
| DeltaQueueSafety.NextConserves | router/src/timer.c:90-203 | each step keeps, per destination, arrived packets equal to departed ones followed by waiting ones |
| DeltaQueueRuns.EveryRunConserves | router/src/timer.c:74-273 | over every run no packet is lost, duplicated or reordered within its destination |
| DeltaQueueRuns.RunKeepsInvIff | router/src/timer.c:74-273 | the invariant holds all along a run if and only if the run avoids the stalling resolution |
| DeltaQueueRuns.AddKeepsDeadline | router/src/timer.c:205-273 | adding packets postpones nobody |
| DeltaQueueRuns.ResolveKeepsDeadline | router/src/timer.c:155-191 | resolving another destination moves no deadline back, and leaves a clock to meet it if and only if it is not the whole-second corner |
| DeltaQueueRuns.TickKeepsDeadline | router/src/timer.c:74-153 | a tick, early or not, postpones nobody beyond the one retry |
| DeltaQueueRuns.NextSpendsDeadline | router/src/timer.c:74-273 | each step uses up at least its duration of every deadline |
| DeltaQueueRuns.WaitIsBounded | router/src/timer.c:74-273 | a destination waits at most (2 - retry_amt) seconds |
| DeltaQueueRuns.StallIsReachable | router/src/timer.c:174-180 | a concrete run in which a destination waits as long as one likes |
| DeltaQueueRuns.NextAsksAsRecorded | router/src/timer.c:101-115 | a waiting destination is asked for once when queued and once per counted retry |
| FlatLayout.TagAreasAgree | router/src/hashmap.c:84-87 | the two formulas for the size of the tag area agree for every n |
| FlatLayout.SetOneTag | router/src/hashmap.c:47-57 | setting a two-bit tag leaves the other three tags of its byte |
| FlatLayout.TagIsDigit | router/src/hashmap.c:47-51 | the tag is the two bits at twice the index modulo 4 |
| FlatLayout.TagWrite | router/src/hashmap.c:53-57 | a tag write changes one slot's tag in the whole block |
| FlatLayout.SlotWrite | router/src/hashmap.c:68-71 | copying key and value changes that slot only and no tag |
| FlatLayout.SpanIsProduct | router/src/hashmap.c:68 | slot addresses are tag area plus width times index |
| FlatLayout.RemoveLooksRightIff | router/src/hashmap.c:147 | removal looks at the key's bytes only in slot 0 of tables whose tag area is as long as a slot, or in tables of at most four slots |
| CyclicHash.Compute | router/src/hashmap.c:35-45 | the loop computes a function of the key bytes below 2^31 - 1 |
| CyclicHash.HashOfThree | router/src/hashmap.c:35-45 | three rounds worked out |
| CyclicHash.RoundFitsWord | router/src/hashmap.c:42 | no round overflows 64 bits |
| ProbeTable.EmptyMeansAbsent | router/src/hashmap.c:121-122 | a search that meets an empty slot has missed nothing |
| ProbeTable.SearchEndsIff | router/src/hashmap.c:119-132 | a search ends if and only if its key is there or a slot is empty |
| ProbeTable.PlaceKeepsTable | router/src/hashmap.c:64-77 | filling the first free slot of the probe keeps chains and uniqueness and adds exactly one pair |
| ProbeTable.BuryKeepsTable | router/src/hashmap.c:149 | a grave keeps the chains and removes exactly one key |
| ProbeTable.CleanKeepsTable | router/src/hashmap.c:156-160 | a grave before an empty slot can become empty without cutting any chain |
| ProbeTable.TidyLeavesNoGraves | router/src/hashmap.c:156-161 | the clean-up is complete: a table that lost all keys and has an empty slot has no grave |
| HashTable.HashMap.TagGet | router/src/hashmap.c:47-51 | reads the tag of one slot |
| HashTable.HashMap.TagSet | router/src/hashmap.c:53-57 | changes the tag of one slot in the byte array |
| HashTable.HashMap.WriteSlot | router/src/hashmap.c:68-71 | changes key and value of one slot in the byte array |
| HashTable.HashMap.Get | router/src/hashmap.c:116-133 | returns the value of the map or nothing, and terminates exactly where a search can |
| HashTable.HashMap.ContainsKey | router/src/hashmap.c:135-137 | membership in the map |
| HashTable.HashMap.Insert | router/src/hashmap.c:59-78 | adds an absent key to the map, growing at half load |
| HashTable.HashMap.Grow | router/src/hashmap.c:80-114 | growth as meant: 2n + 1 slots, the same map, no graves, an empty slot |
| HashTable.HashMap.Remove | router/src/hashmap.c:139-162 | removal as meant: the map without the key, chains and tidiness restored |
| HashTable.HashMap.CleanUp | router/src/hashmap.c:156-161 | the backward walk ends and keeps the map |
| HashTable.HashMap.GrowAsCoded | router/src/hashmap.c:80-114 | growth to the letter: only copies of the all-zero key remain |
| HashTable.HashMap.InsertToTheLetter | router/src/hashmap.c:59-114 | insertion with growth to the letter, whatever keys the table holds |
| CodedGrowth.InsertedKeepsLoad | router/src/hashmap.c:59-114 | it keeps at most half of the slots taken, and from the first growth on the table holds the all-zero key |
| CodedGrowth.FindIs | router/src/hashmap.c:116-133 | in a good table the probing loop is a lookup in the map |
| HashTable.HashMap.InsertAsCoded | router/src/hashmap.c:59-78 | with that growth insertion is right if and only if size is below size_allocated / 2 |
| HashTable.KeyIsLost | router/src/hashmap.c:101-110 | growth to the letter loses one of any two keys |
| HashTable.HashMap.CleanUpAsCoded | router/src/hashmap.c:156-161 | the clean-up to the letter on the byte array, with the tag it reads behind the last slot, and whether its walk leaves the block |
| UnwrappedCleanUp.WalkBackIff | router/src/hashmap.c:157-160 | the walk leaves the block exactly when slots 0 to its start are all graves; otherwise it is the wrapping walk |
| UnwrappedCleanUp.CodedCleanUpIsMeantIff | router/src/hashmap.c:156-161 | inside the table it is the meant clean-up unless it runs into slot 0; at the last slot it is if and only if what it reads behind it is empty exactly when slot 0 is |
| UnwrappedCleanUp.CodedCleanUpKeepsTableIff | router/src/hashmap.c:156-161 | it stays in the block and keeps every probe chain if and only if, having read an empty tag, it does not run into slot 0 and, from the last slot, no chain runs past the end |
| UnwrappedCleanUp.FoundIff | router/src/hashmap.c:118-132 | the search for a key that is there gets to it if and only if its chain is whole |
| UnwrappedCleanUp.PastTagIsPadding | router/src/hashmap.c:47-57 | for 11 and for 2n + 1 slots the tag behind the last slot is padding, empty from the start and never written |
| HashTable.HashMap.RemoveAsCoded | router/src/hashmap.c:139-162 | the removal to the letter on the byte array, where its search ends |
| CodedRemoval.SearchIsRightIff | router/src/hashmap.c:142-155 | its search buries exactly the key's slot if and only if the bytes it compares there are the key and those at the taken slots before it are not; for an absent key likewise up to an empty slot |
| CodedRemoval.CodedRemoveIsMeantIff | router/src/hashmap.c:139-162 | the whole removal ends and does what is meant if and only if its search is right and, for a key that is there, its clean-up is |
| CodedRemoval.LoneKeyStaysIff | router/src/hashmap.c:147 | in a new table a lone key with home 2 or more stays if and only if it is not all zeros |
| CodedRemoval.UnwrappedCleanUpBreaksChain | router/src/hashmap.c:156-161 | two keys of any length inserted under the real hash, the first one buried: the clean-up cuts off the second |
| CodedRemoval.RemovalLosesAKey | router/src/hashmap.c:139-162 | three keys of up to seven bytes inserted under the real hash: removing the first one, search and clean-up to the letter, loses the second |
| HashTable.EmptyFromLoad | router/src/hashmap.c:61 | without removals the load bound leaves an empty slot |
| HashMapRuns.Replay | router/src/hashmap.c:59-162 | every run of insertions, lookups and removals gets the answers of a plain map, through all growth and clean-up, up to the first search that never ends; runs without removals have none |
| HashMapRuns.FindsWhatWasPut | router/src/hashmap.c:116-133 | a lookup finds a value if and only if it was inserted under the key and not removed since |
| Napt.OutKeepsStep | router/src/ipv4.c:108-146 | an outgoing packet keeps the two tables in step and every older mapping |
| Napt.OutEffect | router/src/ipv4.c:108-139 | a mapped endpoint keeps its port; another takes the first drawn port free for its remote and is entered under both keys with these fields; otherwise nothing changes |
| Napt.KeysInBijection | router/src/ipv4.c:123-135 | LAN endpoints and external keys are in bijection |
| Napt.FreePortIff | router/src/ipv4.c:118-144 | a packet is dropped if and only if all ten drawn ports are taken for its remote |
| Napt.ReplyReturnsIff | router/src/ipv4.c:192-211 | a reply returns to the endpoint if and only if it comes from the remote of the mapping |
| Napt.RoundTrip | router/src/ipv4.c:104-163 | over whole runs the creating remote always reaches the endpoint and the endpoint keeps its port |
| Napt.OnlyAnswersEnter | router/src/ipv4.c:192-201 | over whole runs an incoming packet finds an endpoint only if that endpoint has sent to exactly its source |
| NaptTables.ExternBytesInjective | router/include/ipv4.h:28-33 | distinct external keys have distinct bytes |
| NaptTables.InternBytesInjective | router/include/ipv4.h:35-39 | distinct internal keys have distinct bytes |
| NaptTables.Layouts | router/include/ipv4.h:28-39 | the bytes of keys and entries in memory |
| NaptTables.EntryRoundTrip | router/include/structs.h:22-30 | an entry read from its bytes is the entry written |
| NaptTables.EntryTable.Lookup | router/src/ipv4.c:112-114 | the byte-level lookup is the lookup in the typed map |
| NaptTables.NaptState.OutPort | router/src/ipv4.c:108-146 | table lookup, ten port draws and both insertions on the two hash tables refine the map form |
| NaptTables.NaptState.PickPort | router/src/ipv4.c:118-139 | the loop finds the first free port |
| NaptTables.NaptState.InEndpoint | router/src/ipv4.c:193-211 | the incoming lookup on the hash table refines the map form |
| NaptGrowth.CodedOutStep | router/src/ipv4.c:108-139 | with growth to the letter the tables are right up to the fifth mapping, and the sixth puts a key into the external table that no packet has |
| NaptGrowth.CodedTablesAgreeIff | router/src/ipv4.c:104-146 | over whole runs the tables to the letter are the ones that are meant if and only if at most five mappings were to be created |
| NaptProtocol.StepKeepsInv | router/src/ipv4.c:104-219 | every atomic step of every thread keeps lock ownership, table agreement and history |
| NaptProtocol.NoHalfMappingIsSeen | router/src/ipv4.c:111-213 | after every interleaving no incoming packet sees a half-inserted mapping, forwards answer requests to that exact remote, and outgoing packets leave by the port of their mapping |
| NaptProtocol.MutualExclusion | router/src/ipv4.c:111-213 | at most one thread is inside each table |
| NaptProtocol.InternLookupIsStable | router/src/ipv4.c:111-146 | what the owner of the internal table reads is not changed by others |
| NaptProtocol.NoDeadlock | router/src/ipv4.c:111-146 | the lock order leaves some busy thread able to step |
| NaptAlone.OutAlone | router/src/ipv4.c:104-163 | a thread that is not disturbed does to the tables what is meant, and forwards its packet with the port that is meant, or drops it |
| NaptAlone.InAlone | router/src/ipv4.c:168-219 | a thread that is not disturbed forwards its incoming packet to the endpoint that is meant, or drops it |
| NaptLocksAsCoded.CodedStepKeepsLocksIff | router/src/hashmap.c:123-129 | a step under the locking as written keeps owners and threads in agreement exactly when it neither hits nor gives up |
| NaptLocksAsCoded.LocksAgreeAlongIff | router/src/ipv4.c:104-219 | they agree all along a run if and only if no lookup of the run finds its key and nobody gives up |
| NaptLocksAsCoded.SoundRunIsMeant | router/src/ipv4.c:104-219 | such a run is a run of the intended protocol |
| NaptLocksAsCoded.HalfMappingCanBeSeen | router/src/ipv4.c:120-138 | after a collision another thread can look up in the middle of an insertion |
| NaptLocksAsCoded.HalfMappingIsReached | router/src/ipv4.c:111-213 | a run from the start comes to that, with two threads inside the external table |
| NaptLocksAsCoded.GivingUpLeaksIff | router/src/ipv4.c:141-144 | after a step the internal table is locked and nobody means to unlock it if and only if it was so before or the step gives up with no other thread inside |
| NaptLocksAsCoded.RunLeaksIff | router/src/ipv4.c:141-144 | a run ends in that state if and only if such a step occurs in it |
| NaptLocksAsCoded.LeakIsForever | router/src/ipv4.c:141-144 | over whole runs from there on the table stays locked and no outgoing packet is forwarded |
| NaptLocksAsCoded.LeakIsReached | router/src/ipv4.c:117-144 | a run from the start comes to that, through ten draws of a taken port |
| Ipv4.OutRewriteEffect | router/src/ipv4.c:149-158 | the outgoing rewrite replaces the source endpoint and nothing else |
| Ipv4.InRewriteEffect | router/src/ipv4.c:203-212 | the incoming rewrite replaces the destination endpoint and nothing else |
| Ipv4.PacketRoundTrip | router/src/ipv4.c:77-219 | an answer to a rewritten packet is rewritten into an answer to the original |
| Ipv4.NaptOutHandle | router/src/ipv4.c:77-164 | in place on the packet and both tables, including the protocols it drops |
| Ipv4.NaptIncHandle | router/src/ipv4.c:168-219 | in place on the packet, including the packets it drops |
| Forwarding.Ipv4Handle | router/src/ipv4.c:44-75 | the dispatch on the real tables, packet buffer and wait queue: ignored, bridged unchanged, or translated, and then sent |
| Forwarding.Handled | router/src/ipv4.c:44-75 | whatever is handed to `send_ipv4` still has all the headers that it reads |
| Forwarding.LanToLan | router/src/ipv4.c:46-70 | from the LAN, a broadcast and a packet for the arrival interface are ignored, and one for another LAN interface is bridged as it is |
| Forwarding.LanToWan | router/src/ipv4.c:71-163 | from the LAN to the WAN exactly TCP and UDP for which a port is had go on, from the public address and that port, otherwise unchanged |
| Forwarding.FromWan | router/src/ipv4.c:51-58 | from the WAN exactly TCP and UDP for the router's own address with a mapping go on, to its endpoint, otherwise unchanged |
| Forwarding.HandledTables | router/src/ipv4.c:62-74 | only TCP and UDP packets from the LAN to the WAN touch the tables |
| Forwarding.OnlyAnswersAreForwarded | router/src/ipv4.c:51-58 | after any run of arrivals a packet from the WAN is let through only as an answer to an earlier one that left, and to the host that sent that |
| Forwarding.ThereAndBack | router/src/ipv4.c:44-219 | after any run of arrivals, and any further one in between, the answer to a packet that left becomes an answer to the original and has the sending host as next hop |
| Checksum.FoldStep | router/src/outgoing.c:24-26 | one carry round keeps the one's-complement value and gets smaller |
| Checksum.CalculateChecksum | router/src/outgoing.c:17-28 | complement of the folded sum for every length to 65535, odd ones included, without 32-bit overflow |
| Checksum.ByteOrderIndependence | router/src/outgoing.c:21-23 | native little-endian sums are byte-swapped network-order sums (section 2(B) of RFC 1071) |
| Checksum.NativeChecksumIsNetworkChecksum | router/src/outgoing.c:35-36 | the natively stored checksum is the one RFC 1071 defines |
| Checksum.SeededChecksum | router/src/outgoing.c:52-54 | seeding the field with the pseudo-header sum equals summing pseudo-header and segment |
| Checksum.FoldIsResidue | router/src/outgoing.c:24-26 | the folded sum is the sum modulo 65535, and zero for a zero sum only |
| Checksum.ChecksummedVerifies | router/src/outgoing.c:35-36 | data with its checksum sums to all ones |
| Checksum.AllOnesForZeroVerifies | router/src/outgoing.c:55 | so does data with all ones in place of a zero checksum |
| Outgoing.RewriteChecksums | router/src/outgoing.c:35-72 | the in-place rewrite of the packet buffer |
| Outgoing.OnlyChecksumsChange | router/src/outgoing.c:35-72 | only the two checksum fields change |
| Outgoing.EmittedHeaderVerifies | router/src/outgoing.c:35-36 | the words of every emitted IPv4 header add up to all ones |
| Outgoing.EmittedHeaderIsNetworkChecksum | router/src/outgoing.c:35-36 | its checksum is that of RFC 791, section 3.1, from the bytes of the packet |
| Outgoing.EmittedTcpVerifies | router/src/outgoing.c:58-72 | both addresses, protocol number 6, the length and every emitted TCP segment add up to all ones |
| Outgoing.EmittedTcpIsNetworkChecksum | router/src/outgoing.c:58-72 | its checksum is that of RFC 9293, section 3.1, from the bytes of the packet |
| Outgoing.EmittedUdpVerifies | router/src/outgoing.c:42-57 | so do those of every UDP datagram with an enabled checksum, with protocol number 17; its checksum is never 0, a disabled one stays disabled (RFC 768) |
| Outgoing.EmittedUdpIsNetworkChecksum | router/src/outgoing.c:42-57 | an enabled UDP checksum is that of RFC 768, all ones in place of zero, from the bytes of the packet |
| Outgoing.RewriteIsIdempotent | router/src/outgoing.c:35-72 | rewriting a queued packet again on release changes no byte, in all four cases |
| PaddingByte.AsCodedIsPadded | router/src/outgoing.c:17-72 | with the zero byte stored where the text stores it, the rewrite is the one above with at most that byte more changed |
| PaddingByte.AsCodedAgreesIff | router/src/outgoing.c:17-72 | both rewrites agree if and only if there is no such byte in the packet or it was zero |
| PaddingByte.PadIsStored | router/src/outgoing.c:19-20 | behind an odd number of summed UDP bytes there is a zero |
| PaddingByte.PadIsUdp | router/src/outgoing.c:40-72 | in a packet as long as its header says, only a UDP segment that ends before it is concerned |
| PaddingByte.AsCodedIsIdempotentIff | router/src/outgoing.c:17-72 | to the letter, rewriting twice is rewriting once if and only if it is not an enabled UDP checksum over a length of 5, or the ports sum to zero or all ones |
| Devices.DeviceTable.Update | router/src/devices.c:13-37 | the growable array refines a map update, so no address is ever forgotten |
| Devices.DeviceTable.Reallocate | router/src/devices.c:27-32 | growth keeps the pairs and makes room |
| Devices.DeviceTable.HasMac | router/src/devices.c:39-49 | membership in the map |
| Devices.DeviceTable.GetMac | router/src/devices.c:51-62 | the mapped MAC, or zeros |
| Router.RouterState.SendIpv4 | router/src/outgoing.c:30-135 | rewritten packet is transmitted to its next hop's MAC if known, otherwise queued for that hop |
| Router.UnknownHopQueues | router/src/outgoing.c:87-94 | to an unknown next hop nothing is written; exactly the rewritten packet joins the end of the hop's packets, nobody else's change, and a new hop is asked for once on the packet's longest-prefix interface |
| Router.KnownHopTransmits | router/src/outgoing.c:96-123 | to a known next hop exactly one frame is written on the packet's longest-prefix interface, from its MAC to the hop's, if that is an Ethernet one, and the queue does not change |
| Router.RouterState.ChooseHop | router/src/outgoing.c:73-85 | the next-hop branches |
| Router.NextHopIsOnLink | router/src/outgoing.c:73-85 | the gateway is used exactly for destinations that do not share the WAN prefix |
| Router.RouterState.ArpHandle | router/src/arp.c:15-38 | learns first, then transmits every packet that waits for the sender to that MAC in its order, and queues none again |
| Router.RouterState.Alarm | router/src/timer.c:74-153 | the handler keeps every queued packet in the node of its next hop |
| Router.RouterState.LearnFromIpv4 | router/src/ethernet.c:12-20 | an IPv4 frame teaches a MAC without releasing the queue |
| Router.RewrittenIsRouted | router/src/outgoing.c:35-92 | what is queued has settled checksums and stands under its own next hop |
| Router.AllReleasedTransmitted | router/src/timer.c:194-201 | each released packet becomes one frame from its interface's MAC to the learnt MAC, in order |
| SendProtocol.SendAlone | router/src/outgoing.c:30-135 | a thread that is not disturbed sends as `send_ipv4` is meant to |
| SendProtocol.ArpAlone | router/src/arp.c:15-38 | a thread that is not disturbed writes every packet that waits for the sender, in its order, to the MAC just learnt |
| SendProtocol.OnlyHearsayTeaches | router/src/devices.c:13-37 | the device table changes only when a thread hears of a MAC, in that address |
| SendProtocol.NeverRequeued | router/src/timer.c:194-201 | under every interleaving no released packet is queued again |
| SendProtocol.WritesToKnownMac | router/src/outgoing.c:87-115 | whatever is written goes to the MAC known for its next hop at that moment |
| SendProtocol.QueueRunsAlone | router/src/timer.c:74-273 | under every interleaving the wait queue makes a run of its own, in the order of its mutex |
| SendProtocol.LatePacketLeaves | router/src/outgoing.c:87-99 | a packet queued just after its address was learnt leaves too: every destination waits at most (2 - retry_amt) seconds, whatever is known and however threads are scheduled |
| SendProtocol.EveryPacketIsSomewhere | router/src/outgoing.c:30-135 | under every interleaving each packet is in one thread's hands, in the queue, given up, or through, and in no two of them |
| Interfaces.CreateSubnetMask | router/src/utils.c:5-17 | the loop computes the mask, whose fourth byte is always 0 |
| Interfaces.PrefixLenGet | router/src/utils.c:19-32 | the loops compute the prefix length, or nothing |
| Interfaces.PrefixOfLeadingOnes | router/src/utils.c:19-32 | recovers every length but 32 |
| Interfaces.PrefixOfAnyMask | router/src/utils.c:19-32 | what it returns for any mask at all |
| Interfaces.PrefixLenInvertsMask | router/src/utils.c:5-32 | inverts the mask if and only if the length is at most 24 |
| Interfaces.MaskClearsHostBits | router/src/utils.c:34-42 | masking keeps exactly the leading bits of the address as a number |
| Interfaces.MatchesIsPrefixAgreement | router/src/interfaces.c:87-88 | an entry matches if and only if its network shares exactly its prefix with the address |
| Interfaces.GetInterfaceForIp | router/src/interfaces.c:80-94 | the scan over the table |
| Interfaces.LongestPrefixMatch | router/src/interfaces.c:80-94 | the result is exactly the first entry of greatest prefix length that matches; a default entry makes one exist |
| DhcpLeases.OfferIsFresh | router/src/dhcp.c:144-158 | an offer is an address nobody holds, leaves other leases alone, and is 0.0.0.0 exactly when all slots are live |
| DhcpLeases.OfferIsFirst | router/src/dhcp.c:144-158 | the offer is 192.168.1.100 plus the number of the first slot that is not live |
| DhcpLeases.LiveLeasesDistinct | router/src/dhcp.c:148-154 | live leases have distinct addresses |
| DhcpLeases.AckedIffLive | router/src/dhcp.c:136-140 | a request is acknowledged exactly when its address has a live lease |
| DhcpLeases.PoolCheckAccepts | router/src/dhcp.c:41-45 | exactly which addresses the raw range check accepts |
| DhcpLeases.PoolCheckAcceptsTooMuch | router/src/dhcp.c:41-45 | it accepts the pool and more, and is right if and only if the address has the pool's first three bytes or is refused by its ending |
| DhcpLeases.AckIsKeptIff | router/src/dhcp.c:136-158 | an acknowledged lease stands for all the announced time, whatever is offered meanwhile, if and only if its expiry is not sooner; if it is sooner and the slots before it are live, an offer at the expiry gives the address away |
| DhcpLeases.NewLeaseIsKeptIff | router/src/dhcp.c:150-255 | that is, for acknowledgements in the first 162000 seconds of a lease and none after |
| DhcpLeases.ReachableSlots | router/src/dhcp.c:144-158 | in every reachable table an allocated slot holds its own pool address |
| DhcpLeases.NoDoubleLease | router/src/dhcp.c:144-158 | over runs no address is offered again while its lease lasts |
| DhcpLeases.DhcpServer.CleanupExpiredLeases | router/src/dhcp.c:303-315 | the loop frees exactly the expired slots |
| DhcpLeases.DhcpServer.GetAvailableIp | router/src/dhcp.c:144-158 | clean-up, first free slot, new lease, in place |
| DhcpLeases.DhcpServer.IsIpAvailable | router/src/dhcp.c:47-56 | true exactly when no live lease has the address |
| DhcpLeases.DhcpServer.HandleRequest | router/src/dhcp.c:129-141 | acknowledges exactly live leases |
| DhcpOptions.ReadOption | router/src/dhcp.c:114-124 | both option loops, with reads beyond the buffer made visible |
| DhcpOptions.ScanFindsFirst | router/src/dhcp.c:114-124 | from any well-formed option list the loops read the first option with the code and miss one that is not there |
| DhcpOptions.ReplyLayout | router/src/dhcp.c:182-228 | the bytes of a reply, the announced time being 18000 in network order |
| DhcpOptions.BuildReply | router/src/dhcp.c:182-228 | the offer and ack writers produce header, gap and options |
| DhcpOptions.GapSkipped | router/src/dhcp.c:164-174 | the two-byte stride lands exactly behind an even gap of zeros |
| DhcpOptions.OptionsReadBack | router/src/dhcp.c:192-226 | from the option list both readers find each written value |
| DhcpOptions.ReplyReadsBack | router/src/dhcp.c:160-283 | every reply reads back as written through the server's own loops and through an RFC 2132 reader |

## Left out

- Sockets, pcap files, interface set-up, threads and signal masks: plumbing around the modelled functions.
- WiFi frames: unfinished in the source; a packet for a WiFi interface produces no frame.
- `handle_dhcp_packet`: its dispatch on the message type, between what is modelled here.
- `send_dhcp_nak`: it copies the client's options in front of its own, so nothing reads back.
- NAPT timestamps and expiry, ICMP and fragmentation: marked as not done in the source.
- Allocation failure.
- Outgoing.RewriteChecksums: the zero byte that `calculate_checksum` stores behind an odd-length segment is
  virtual in the in-place method, although it can lie inside the packet; `PaddingByte` has it on values.
- Outgoing.OnlyChecksumsChange: that byte too.
- Outgoing.RewriteIsIdempotent: that byte too; `PaddingByte.AsCodedIsIdempotentIff` is the condition with it.
- IPv4 headers of fewer than five words, whose transport header would overlap the addresses it is
  checksummed with: `Outgoing.Sound` leaves them out.
- HashTable.HashMap.Insert: with the growth that is meant; `InsertAsCoded` is the one to the letter.
- HashTable.HashMap.Grow: what is meant; `GrowAsCoded` is the one to the letter.
- HashTable.HashMap.CleanUp: what is meant; `CleanUpAsCoded` is the one to the letter.
- HashTable.HashMap.Remove: what is meant; `RemoveAsCoded` is the one to the letter. Nothing in the router
  calls it.
- Napt.RoundTrip: with the growth that is meant; `NaptGrowth.CodedTablesAgreeIff` says how far it goes.
- NaptTables.NaptState.OutPort: with the growth that is meant.
- DeltaTimer.DeltaNode: the packet list of a node is a seq field that is reassigned, not a linked list of its
  own; sharing between packet lists is not captured.
- Router.RouterState.ArpHandle: unchanged bytes means without the byte of `PaddingByte`. Learning, releasing
  and sending are one atomic step in this method; `SendProtocol` has them apart, on values.
- Router.RouterState.SendIpv4: looking up the MAC and queueing are one step in this method; `SendProtocol`
  has them apart.
- HashTable.HashMap.Get: where the key is absent and no slot is empty the C loop does not end, which
  `ProbeTable.SearchEndsIff` says and the method's precondition shuts out; only removals can get there.
- DhcpLeases.DhcpServer.GetAvailableIp: the MAC field of a lease is never written by the source either.
