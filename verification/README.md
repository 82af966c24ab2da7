# Verified kernels of the quickstart backend

This project models the parts of the quickstart router application whose correctness is not
obvious from reading one function, and proves what they keep over every input, every run or
every interleaving. Each Dafny module stands for one file or one concern of the repository.

**The rendezvous bus** (`Rendezvous`, `DhnsServer`, `ControlSlot`). `DialDhns` registers an id and
waits on a channel of capacity one; `PutDhnsConn` hands in a connection for an id; one goroutine pairs the
two through a map, a linked list and back pointers, and gives up on a dial after ten seconds.
`Rendezvous` is the step system: clock, dial, put, the three cases of the bus and the receiving
end, in any order. `DhnsServer` has the map, the list and the channels as objects, and each of
its methods is proved to be one step of that system. A notice that the bus takes before the
registration of its dial closes the connection; nothing repairs that, and it is stated as it is.
`ControlSlot` is the one control connection beside the bus.

**Event coalescing** (`EventState`, `DhnsWorker`). `runtime.State` turns interface and DHCP
events into at most one worker. The worker's last, empty `Drain` and its `Finish` are two
critical sections. An event of either kind between them is neither reported nor given a new worker
until some other event comes: `StrandedIffInWindow` says that this happens in that window and nowhere
else. Outside it the next drain reports the event, except that a DHCP event that falls in a pass of
the worker is withdrawn when that pass stops udhcpc: `LeaseCanBeLostIffInPass`. The fifteen-second
timer of `startUdhcpc` clears whatever waiter is registered: another one's exactly when a waiter that
lost its registration to a lease still lives.

**Address conflicts** (`Bits`, `Cidr`, `Conflict`, `Recovery`). Two `Contains` calls decide whether
two blocks share an address exactly when one mask has all the bits of the other, which prefix masks
always do (section 3.1 of RFC 4632). The same condition decides whether every planned move of the
LAN resolves the overlap, for a LAN whose mask has an option of its own; a mask behind the slash of
`ipaddr` is lost in the move. An address whose netmask did not parse can pass the test and shares
nothing: `OverlapsExactIffNotMisread` names those inputs. A lease's subnet is any text that parses, so
planb can come up on a lease that shares an address with the LAN, exactly when the masks are not nested.

**Pool arithmetic** (`JsInt`, `IpRange`, `DhcpPool`). The browser computes on signed 32-bit numbers,
the backend on unsigned ones. Both read the same patterns, both validators accept exactly the
prefix masks, and a range that the browser lets through is one that the backend accepts. The pool
that the browser itself proposes passes its own check for prefixes 1 to 29 only.

**Traffic statistics** (`StatsWindow`, `WanStats`, `LanFlows`, `LanStats`). Windows of twelve items
shifted in place, rates with truncating division, totals per host over dumps of the connection table,
and the arrays that requesters keep. `LanFlows` says what a run of dumps amounts to, `LanStats` has the
objects. Bytes whose end has no valid address are the only ones missing from the balance.

**Framing** (`Message`), **the log recorder** (`Recorder`), **the online checker** (`OnlineChecker`),
**static leases** (`StaticAssignment`) and **the model-file filter** (`ModelFilter`) complete the
model. More findings are stated as lemmas there: a recorder without room for the head, the marker and
one line panics or outgrows its size; `Since` is exact exactly when the buffer is in order of time; a
`Reset` during a check is lost when the check ends; when two sections share a MAC, deletion by position
goes wrong, and may remove another device's section, unless the later ones are named; and a request that comes with an automatic tag takes the section of another device if
that one has the tag's name.

Conventions: a mutex-protected section is one step; the clock is an integer that never goes back;
a channel is a sequence of at most its capacity. A step of a state machine that a method carries
out is a function, and the method's contract equates the new state with that function of the old.

## Model

| member | source | states |
|---|---|---|
| Rendezvous.NoRunFaults | backend/dhns/server.go:83-134 | in every interleaving the bus never blocks on a dial's channel, never sends on a closed one and never closes one twice |
| Rendezvous.EachConnectionIsInOnePlace | backend/dhns/server.go:105-153 | after every run each connection put is in exactly one of: the notice queue (once), the closed ones, or one single dial, whose id is the one it was put with |
| Rendezvous.EveryDialIsAnswered | backend/dhns/server.go:87-112 | from the moment a dial is made: once the bus took the registrations queued before it and its own, a tick more than ten seconds later leaves its channel closed for good, whatever else happens |
| Rendezvous.WaitingDialIsAnswered | backend/dhns/server.go:87-104 | the same for a dial on the list, counted from its own registration |
| Rendezvous.QueueMoves | backend/dhns/server.go:105-112 | registrations are taken first in, first out, over any run |
| Rendezvous.TickEndsExactlyTheOld | backend/dhns/server.go:87-104 | a tick closes the channel of a dial on the list if and only if it has been there for more than ten seconds, and leaves all others as they were |
| Rendezvous.YoungDialStays | backend/dhns/server.go:83-134 | over any run a dial stays on the list, its channel open and empty, until a notice with its id is taken or a tick comes more than ten seconds after its registration |
| Rendezvous.RegistrationIsTaken | backend/dhns/server.go:105-112 | a registration goes on the list from that second on, or has its channel closed without an answer exactly when its id is on the list |
| Rendezvous.NoticesMove | backend/dhns/server.go:113 | notices too are taken first in, first out, over any run |
| Rendezvous.PutGoesToTheBack | backend/dhns/server.go:145-153 | a connection goes to the back of that queue under its id, and there are at most eight |
| Rendezvous.NoticeAnswersWaitingDial | backend/dhns/server.go:113-127 | a notice taken while a dial with its id waits answers that dial with that connection in every continuation |
| Rendezvous.EarlyNoticeIsShut | backend/dhns/server.go:128-130 | a notice taken with no such dial waiting closes the connection, and no dial gets it in any continuation |
| Rendezvous.EarlyNoticeStrandsDial | backend/dhns/server.go:105-131 | a run in which that happens to a dial that registered first and then waits in vain until its timeout |
| Rendezvous.RunKeepsInv | backend/dhns/server.go:83-199 | every event keeps the invariant: channels fresh while registered, list in order of time, ids distinct, each connection in one place |
| Rendezvous.YoungIsSuffix | backend/dhns/server.go:89-104 | in a list ordered by time the young registrations are a suffix, so stopping at the first young one misses no old one |
| Rendezvous.RunExtends | backend/dhns/server.go:83-199 | over any run ids, answers, closings and registration times are never taken back |
| DhnsServer.Server.constructor | backend/dhns/server.go:49-70 | the empty bus represents the initial state |
| DhnsServer.Server.ConnItemRegist | backend/dhns/server.go:136-143 | registering a dial is the dial step; it waits exactly when the queue is full |
| DhnsServer.Server.PutDhnsConn | backend/dhns/server.go:145-153 | putting a connection is the put step; it waits exactly when the queue is full |
| DhnsServer.Server.BusTick | backend/dhns/server.go:87-104 | the sweep over list, map and channels terminates, is the whole tick step, and keeps map, list and back pointers consistent |
| DhnsServer.Server.BusRegister | backend/dhns/server.go:105-112 | taking a registration is the register step, for a new id and for one already waiting |
| DhnsServer.Server.BusNotify | backend/dhns/server.go:113-131 | taking a notice is the notify step: delivery through the map, or closing the connection |
| DhnsServer.Server.TimeOut | backend/dhns/server.go:96-99 | timing out the first item removes it from map and list and closes its channel once |
| DhnsServer.Server.Receive | backend/dhns/server.go:183-191 | the dialing side gets its answer, learns there is none, or keeps waiting, according to its own channel |
| DhnsServer.Server.MapFinds | backend/dhns/server.go:106-114 | a lookup in the map finds exactly what a search of the list would |
| DhnsServer.PopThenTick | backend/dhns/server.go:89-104 | removing one old front registration and then ticking is the same tick |
| DhnsServer.SweepIsOver | backend/dhns/server.go:100-103 | with an empty list or a young front a tick changes nothing |
| ControlSlot.Slot.HandleConn | backend/dhns/server.go:201-213 | a connection is served exactly when none is, and closed otherwise |
| ControlSlot.Slot.CloseConn | backend/dhns/server.go:263-275 | only the connection that is being served can free the slot, and is then closed |
| ControlSlot.ServedOrClosedOnce | backend/dhns/server.go:201-275 | in every run each connection that came in is being served or closed, and none is closed twice by reader and stale writers |
| ControlSlot.OnlyItsOwnFailureReleases | backend/dhns/server.go:201-275 | until its own reader or writer gives up, a served connection stays, and every newcomer is closed |
| ControlSlot.NextIsServed | backend/dhns/server.go:263-275 | after that failure, with any number of stale ones, the next newcomer is served |
| EventState.State.MarkIfaceChange | backend/modules/dhns/runtime/state.go:28-34 | sets the flag and asks for a worker exactly when none was running |
| EventState.State.Drain | backend/modules/dhns/runtime/state.go:36-48 | reports both flags with the last lease and clears the flags only |
| EventState.State.Finish | backend/modules/dhns/runtime/state.go:50-55 | only `running` changes |
| EventState.State.RegisterDHCPWaiter | backend/modules/dhns/runtime/state.go:57-66 | registers exactly when no waiter is there, and otherwise changes nothing |
| EventState.State.ClearDHCPWaiter | backend/modules/dhns/runtime/state.go:68-73 | forgets the waiter, whoever it is |
| EventState.State.MarkDHCPValid | backend/modules/dhns/runtime/state.go:75-84 | stores the lease, hands the waiter over and asks for a worker exactly when none was running |
| EventState.State.ResetDHCP | backend/modules/dhns/runtime/state.go:86-92 | drops the lease together with its flag |
| DhnsWorker.EveryRunIsSafe | backend/service/dhns.go:168-187 | in every run, with sends of concurrent calls in any order, at most one worker lives, exactly while `running`; a reported DHCP change carries a lease; no signal is dropped and no waiter gets two |
| DhnsWorker.OnlyADrainClears | backend/service/dhns.go:181-187 | a flag goes down only in a drain that reports it or, for DHCP, when udhcpc is stopped |
| DhnsWorker.LeaseIsKnown | backend/modules/dhns/runtime/state.go:36-92 | in every run the lease on record is that of the last DHCP event, unless udhcpc was stopped after it, and every drain reports it |
| DhnsWorker.LeaseAndRegistrationChange | backend/modules/dhns/runtime/state.go:57-92 | which step changes the lease, the registration, the number of waiters and the signals due, and that no other does |
| DhnsWorker.WaitersChange | backend/service/dhns.go:436-449 | a waiter changes only by its signal, by taking it or by its timer, and ends exactly by the last two |
| DhnsWorker.StartMakesOneWaiter | backend/service/dhns.go:416-450 | when udhcpc runs already or a waiter is registered a start leaves waiters and state as they are, and otherwise makes and registers exactly one |
| DhnsWorker.WaitersWereStarted | backend/service/dhns.go:416-450 | in every run there are at most as many waiters as starts of udhcpc that was not running |
| DhnsWorker.WhatAPassMayDo | backend/service/dhns.go:181-343 | after which drains a pass may start or stop udhcpc, and what it may still do after either |
| DhnsWorker.SendBeforeStart | backend/service/dhns.go:550-563 | the worker that a lease starts begins only after the waiter was signalled |
| DhnsWorker.StrandedFlagWasMarkedInWindow | backend/service/dhns.go:175-187 | a set flag of either kind without a worker comes only from marks between the last empty drain and `Finish` |
| DhnsWorker.EventOutsideWindowIsReported | backend/service/dhns.go:168-187 | an event of either kind outside that window: a worker must make a drain, and the first one reports it, with the latest lease, if and only if no pass stopped udhcpc after the last DHCP event before it |
| DhnsWorker.LeaseCanBeLostIffInPass | backend/service/dhns.go:181-343 | the next drain can come to miss a DHCP event if and only if the event falls in a pass that can still stop udhcpc; one that starts a worker, or comes before its first drain or between passes, is always in the next report |
| DhnsWorker.MarkMeetsItsFate | backend/service/dhns.go:178-187 | the same for any flagged change with a worker that has its drain before it |
| DhnsWorker.WithdrawnLeaseIsNotReported | backend/service/dhns.go:229 | a run in which a lease comes during a pass that then stops udhcpc, and is never reported |
| DhnsWorker.EventInWindowIsStranded | backend/service/dhns.go:175-187 | an event of either kind in the window: no drain comes until another event does, and once the worker has finished it is stranded |
| DhnsWorker.NextEventRescues | backend/service/dhns.go:168-172 | any next event starts a worker, whose first drain reports a stranded change of either kind |
| DhnsWorker.StrandedIffInWindow | backend/service/dhns.go:168-187 | an event of either kind can end up unreported without a worker if and only if it falls in the window |
| DhnsWorker.TimeoutHitsAnotherIff | backend/service/dhns.go:430-450 | without a further lease a timer can come to remove another waiter's registration if and only if a live waiter is not the registered one now |
| DhnsWorker.TimeoutClearsAnothersWaiter | backend/service/dhns.go:430-450 | a run over two passes in which one waiter's timer removes the registration of another |
| Cidr.OverlapsExactForPrefixMasks | backend/modules/dhns/conflict/service.go:43-45 | for prefix masks the two membership tests hold exactly when the blocks share an address |
| Cidr.TestsDecideSharingIffNested | backend/modules/dhns/conflict/service.go:43-45 | the tests decide sharing for all addresses if and only if the masks are nested |
| Cidr.OverlapsExactIffNotMisread | backend/modules/dhns/conflict/service.go:43-45 | for all networks, parsed or not, whose masks are nested when there are two, the test agrees with sharing if and only if neither side is an address without a mask in the other's block, or lacks an address while the other has no block |
| Cidr.UnmaskedAddressOverlaps | backend/modules/dhns/netsections/service.go:70-71 | an address whose netmask option did not parse passes the test and shares nothing |
| Cidr.PrefixMasksNest | backend/modules/dhns/conflict/service.go:43-45 | of two prefix masks one has all the bits of the other |
| Conflict.DhnsIsNeededIff | backend/modules/dhns/conflict/service.go:39-70 | DHNS is needed exactly on a LAN that is a DHCP client or has a gateway, or that shares no address with the WAN and has its DHCP server off; moving commands come exactly with a reload and without DHNS |
| Conflict.MovesTo | backend/modules/dhns/conflict/service.go:27-37 | the LAN moves to 192.168.100.1, or to 192.168.101.1 when the first is in one of the networks |
| Conflict.PlanResolvesOverlap | backend/modules/dhns/conflict/service.go:39-70 | for nested masks, carrying out a plan leaves the LAN readable, its mask kept and its block disjoint from the WAN, with nothing left to plan, if and only if the mask has an option of its own |
| Conflict.SlashMaskIsLost | backend/modules/dhns/netsections/service.go:55-74 | a LAN with its mask behind the slash: after the planned move it is passed over |
| Conflict.PlansResolveIffNested | backend/modules/dhns/conflict/service.go:39-70 | for LANs with a mask option, every plan resolves its overlap if and only if the masks are nested |
| Conflict.UnnestedPlan | backend/modules/dhns/conflict/service.go:39-70 | for any two masks that are not nested, addresses whose plan leaves the overlap |
| Conflict.PlanGivesUpIff | backend/modules/dhns/conflict/service.go:27-57 | an overlap is left without a plan exactly when one of the networks holds each candidate address |
| Conflict.NamespaceBlockIsDisjoint | backend/service/dhns.go:529-548 | the address chosen for the other namespace is 192.168.100.1, or 192.168.101.1 when the first is in the LAN, and its block under the LAN's mask never meets the LAN |
| Conflict.NamespaceStopsIff | backend/service/dhns.go:529-541 | for a prefix mask some LAN address makes DHNS stop exactly when the prefix is 23 or less |
| Recovery.PlanBOnlyForDisjointLease | backend/modules/dhns/recovery/service.go:56-84 | for any lease and LAN whose masks are nested when there are two: planb is created or brought up for a lease that parses and is disjoint from the LAN, and the LAN restarted for one that is not, if and only if the LAN is not an address without a mask in the leased block |
| Recovery.PlanBIsSoundIffNested | backend/modules/dhns/recovery/service.go:56-84 | for a lease mask and a LAN mask that holds for all addresses if and only if the masks are nested |
| Recovery.UnnestedLease | backend/modules/dhns/recovery/service.go:64-83 | for any two masks that are not nested, a lease that shares an address with the LAN and for which planb comes up |
| Recovery.UnmaskedLanConflicts | backend/modules/dhns/recovery/service.go:64-69 | a LAN whose netmask did not parse: a conflict is reported although nothing is shared |
| Recovery.CommandsMakePlanB | backend/modules/dhns/recovery/service.go:75-80 | the commands make planb a DHCP interface on the device given that does not come up by itself |
| Recovery.InterfacesAfterPass | backend/modules/dhns/recovery/service.go:86-128 | what a pass brings up and takes down: when the LAN is up afterwards, when one that is up is touched, when planb stays up, and exactly when each check and setup is made |
| Recovery.IfacePassIsExclusive | backend/modules/dhns/recovery/service.go:86-128 | each pass either starts or stops the probe; it starts exactly when WAN, network and planb all fail; conflict check and namespace setup exclude each other |
| IpRange.LongsCoincide | web/src/utils/iputils.ts:9-12 | the browser's long is the backend's, read as signed |
| IpRange.OctetsOfLong | web/src/utils/iputils.ts:13-15 | the browser turns the signed reading of any address back into that address |
| IpRange.GoLongRoundTrips | backend/utils/ip.go:8-20 | address to long and back is the identity both ways |
| IpRange.OrderOfLongs | backend/utils/ip.go:8-12 | longs are ordered as the addresses, octet by octet |
| IpRange.IsValidMask | web/src/utils/iputils.ts:22-35 | the signed loop accepts exactly the prefix masks |
| IpRange.IsValidIpv4Mask | backend/utils/ip.go:49-62 | the unsigned loop accepts exactly the prefix masks |
| DhcpPool.ValidRangeIff | web/src/utils/iputils.ts:38-48 | for every prefix mask, the signed comparisons accept exactly the ranges that lie in the LAN's block from offset 2 to before its last address |
| DhcpPool.CalcStartAndLimit | backend/utils/ip.go:22-47 | the pool and each error, in the order the code checks |
| DhcpPool.PoolMeans | backend/utils/ip.go:22-47 | exactly when each error is given; the pool starts at the offset of its first address in the block and its limit is the distance to the last |
| DhcpPool.AcceptedRangeIsAccepted | backend/utils/ip.go:37-46 | a range accepted by the browser is accepted by the backend, with start at least 2 and start plus limit before the block's last offset |
| DhcpPool.ProposalIsValidIff | web/src/utils/iputils.ts:50-66 | the proposed pool passes the browser's check if and only if the prefix is 1 to 29 |
| DhcpPool.ProposalForAnyMask | web/src/utils/iputils.ts:50-66 | for every mask, prefix mask or not, the proposed addresses as unsigned words |
| DhcpPool.ProposedPool | web/src/utils/iputils.ts:50-66 | for prefixes 1 to 30 the proposed pool leaves 100 addresses at the start and five at the end of a block of 106 or more, and otherwise only the first two and the last |
| DhcpPool.ProposedElsewhere | web/src/utils/iputils.ts:50-66 | for the other prefixes both ends are one address, with its last bit set |
| StatsWindow.Window.Push | backend/service/wan_stats.go:142-151 | after any number of items the shifted window is the last twelve of the whole history |
| StatsWindow.Window.DropOldest | backend/service/lan_stats_linux.go:228-233 | the in-place loop drops the first item and keeps the order of the others |
| StatsWindow.Window.Append | backend/service/lan_stats_linux.go:234 | appends, in the old array or in a new one with the same contents |
| StatsWindow.Window.Snapshot | backend/service/wan_stats.go:67-68 | the requester gets a new array with the window's items |
| StatsWindow.LastPush | backend/service/wan_stats.go:142-151 | the last twelve of a longer history from the last twelve before |
| WanStats.RatesAccountForBytes | backend/service/wan_stats.go:127-160 | without a reset, rates times durations never exceed 1000 times the bytes and fall short by less than the sum of durations |
| WanStats.ItemsAreInOrder | backend/service/wan_stats.go:127-160 | over any samples the items follow each other in time without overlap, with rates of zero or more |
| WanStats.OrderedSnoc | backend/service/wan_stats.go:127-160 | what one more sample adds to the history, and what is remembered of it |
| WanStats.OneMoreSample | backend/service/wan_stats.go:127-160 | a sample completes an item exactly when the device is the same and no counter went back, from the sample before to this one, with rates that account for both counters |
| WanStats.FirstSample | backend/service/wan_stats.go:128-136 | the first sample completes nothing |
| WanStats.Sampler.FetchItems | backend/service/wan_stats.go:127-160 | one sample: the window stays the history of all completed items, also across resets |
| WanStats.Sampler.OnRequest | backend/service/wan_stats.go:63-91 | a request samples exactly when the sampler sleeps, and is answered with a copy of the window |
| WanStats.Sampler.OnTick | backend/service/wan_stats.go:93-105 | the timer samples unless no request came for ten ticks, and then the sampler sleeps |
| WanStats.CopySurvives | backend/service/wan_stats.go:63-71 | no number of later samples changes a copy or an item in it |
| LanFlows.TrafficIsAccountedFor | backend/service/lan_stats_linux.go:137-173 | for every dump, what all hosts sent plus what lost its sender is both directions of all kept flows, and likewise for what was received |
| LanFlows.TrafficIsConservedIff | backend/service/lan_stats_linux.go:137-173 | sent, received and kept bytes are equal if and only if no kept flow with an invalid end carries bytes |
| LanFlows.HalfValidFlowIsCountedOnce | backend/service/lan_stats_linux.go:152-166 | the smallest dump whose balance is broken |
| LanFlows.FlowCredits | backend/service/lan_stats_linux.go:142-166 | what one flow adds to every host, also when it goes from a host to itself |
| LanFlows.TurnItemsAreContiguous | backend/service/lan_stats_linux.go:209-241 | over any run of turns a host's items follow each other without a gap, each with a received and a sent rate that accounts for its own total or, when that went back, repeats the one before |
| LanFlows.ItemsAccountForDumps | backend/service/lan_stats_linux.go:137-241 | over any run of dumps those are the sums over the dumps from the host's first mention on |
| LanFlows.ItemsOfPrefix | backend/service/lan_stats_linux.go:209-241 | later dumps never change what was completed |
| LanStats.Table.AddSpeeds | backend/service/lan_stats_linux.go:181-194 | exactly one host's totals grow, and it is filed if it is new |
| LanStats.Table.AddFlow | backend/service/lan_stats_linux.go:137-167 | one flow of the loop keeps every host's totals equal to the direct sums |
| LanStats.Table.AddEnd | backend/service/lan_stats_linux.go:152-166 | an end without a valid address is credited to nobody |
| LanStats.Table.Accumulate | backend/service/lan_stats_linux.go:137-167 | after the loop every host's totals are the direct sums over the dump |
| LanStats.Table.ProcessAll | backend/service/lan_stats_linux.go:169-177 | in any order of hosts, each total becomes that host's next sample and is zeroed |
| LanStats.Table.FetchItems | backend/service/lan_stats_linux.go:126-179 | a whole dump: every host, mentioned or not, takes its turn with the direct sums, totals are zero again, and completed items stay |
| LanStats.RecordedItems | backend/service/lan_stats_linux.go:196-242 | after any run of dumps a host has completed exactly the items of that run from its first mention on |
| LanStats.WindowIsWholeRun | backend/service/lan_stats_linux.go:228-234 | its window holds the last twelve of them |
| LanStats.AnswerOfRun | backend/service/lan_stats_linux.go:244-290 | a request is told the newest completed item of a host, or its last twelve, of the whole run |
| LanStats.TableIsBalancedIff | backend/service/lan_stats_linux.go:137-177 | after every dump the samples over all hosts of the table balance if and only if no kept flow with an invalid end carries bytes |
| LanStats.Host.ProcessHost | backend/service/lan_stats_linux.go:196-242 | the item in progress is completed with its averages and enters the window; items stay contiguous in time |
| LanStats.Host.CompleteItem | backend/service/lan_stats_linux.go:209-226 | a total that went back repeats the newest completed average, or zero |
| LanStats.Table.RespHosts | backend/service/lan_stats_linux.go:244-290 | the hosts asked for, each with a new array of its window or of its newest item |
| LanStats.AnswersSurvive | backend/service/lan_stats_linux.go:253-261 | no number of later dumps changes an answer or an item in it |
| Message.Stream.ReadMessage | backend/message/msg.go:32-49 | buffer, stream and result after a read, for each error and for the good case |
| Message.Stream.WriteMessage | backend/message/msg.go:57-64 | the bytes written, both header fields cut to 16 bits |
| Message.WireFormat | backend/message/msg.go:57-64 | size plus four and type, each low byte first, and then the payload |
| Message.ReadOutcomes | backend/message/msg.go:32-49 | exactly when a read fails and how, and what it has then taken off the stream |
| Message.ReadsBackIffFits | backend/message/msg.go:32-65 | reading a written message gives it back and consumes exactly its bytes if and only if it fits the header and the buffer |
| Message.StreamReadsBack | backend/message/msg.go:32-65 | a concatenation of written messages reads back as the same messages in order, nothing else consumed |
| Message.Stream.AnswerPings | backend/dhns/server.go:218-235 | the read loop ends and passes on one pong for each ping before the first error |
| Message.EveryPingIsSeen | backend/dhns/server.go:218-235 | on a stream of written messages that is one for each ping written |
| Recorder.Recorder.constructor | backend/lib/logger/logger.go:340-347 | a new recorder of any size is empty and shows nothing |
| Recorder.Recorder.Append | backend/lib/logger/logger.go:374-400 | for any size the buffer changes as the code says or panics; with room it never panics and shows the first lines, the marker and the most recent lines that fit |
| Recorder.AppendedShows | backend/lib/logger/logger.go:384-399 | with room, one line turns what is to be shown of a log into what is to be shown of the longer log |
| Recorder.SafeIffRoom | backend/lib/logger/logger.go:340-400 | no sequence of lines panics or outgrows the size if and only if there is room for one line, or for head, marker and one line |
| Recorder.MarkerOutgrows | backend/lib/logger/logger.go:396-399 | a size of exactly the head: the marker outgrows it |
| Recorder.NoRoomForATail | backend/lib/logger/logger.go:384-388 | room for head and marker only: the next line panics |
| Recorder.NoRoomForTheHead | backend/lib/logger/logger.go:384-392 | a smaller size, or none: a full buffer panics |
| Recorder.Recorder.Since | backend/lib/logger/logger.go:349-366 | a copy of the suffix from the first later line on |
| Recorder.Recorder.Clear | backend/lib/logger/logger.go:368-372 | starts over |
| Recorder.ShownSnoc | backend/lib/logger/logger.go:384-399 | how one more line changes what is shown: the shift when full, the marker when the head is complete |
| Recorder.LogFits | backend/lib/logger/logger.go:384-399 | the buffer never exceeds its capacity |
| Recorder.SinceIsExactIffInOrder | backend/lib/logger/logger.go:349-366 | `Since` returns exactly the later lines, for every time, if and only if the buffer is in order of time |
| Recorder.LaterIsComplete | backend/lib/logger/logger.go:349-366 | what `Since` is compared with has every later line, in order |
| Recorder.ShownInOrder | backend/lib/logger/logger.go:374-400 | lines and marker stamped in order leave the buffer in order |
| OnlineChecker.Verdict | backend/service/network-online.go:128-175 | exactly when a check concludes with each of the four verdicts |
| OnlineChecker.Checker.GetStatus | backend/service/network-online.go:77-107 | the answer, the new state, and whether a check is started |
| OnlineChecker.Checker.FinishCheck | backend/service/network-online.go:177-182 | the verdict, its time and its key are stored and the flag goes down |
| OnlineChecker.Checker.Reset | backend/service/network-online.go:185-189 | only the time of the last check is forgotten |
| OnlineChecker.EveryAnswerIsJustified | backend/service/network-online.go:64-108 | in every run as many checks are in flight as the flag says, and an answer is the last verdict, for the same key and young enough when the call read the clock, unless this call replaces it |
| OnlineChecker.CheckStartsIff | backend/service/network-online.go:77-105 | over every run a call starts a check exactly when none is under way and no verdict for its key is younger than ninety seconds if good or five if not; a young one is its answer |
| OnlineChecker.TimeIsKept | backend/service/network-online.go:177-189 | over every run the time of the last check is on record exactly while no reset has come |
| OnlineChecker.ExpiredVerdictIsReturnedOnce | backend/service/network-online.go:81-99 | an expired good verdict is returned by the call that starts the check, and every other call until its end gets "detecting" |
| OnlineChecker.ResetIsLostIffChecking | backend/service/network-online.go:177-189 | a reset is undone by the end of a check if and only if one is under way |
| StaticAssignment.HasDuplicateIPConflict | backend/modules/lancontrol/staticassignment/service.go:21-31 | true exactly when a binding request names the address of a host with another MAC |
| StaticAssignment.BuildHostRecords | backend/service/lan_static_assignment_write_store.go:55-70 | the sections with a MAC, each under its name or its position |
| StaticAssignment.BuildCommands | backend/modules/lancontrol/staticassignment/service.go:33-67 | the commands, in order, as a function of request and records |
| StaticAssignment.ExecAdditions | backend/modules/lancontrol/staticassignment/service.go:46-66 | what the commands after the deletions do: one new section at the end with exactly the requested fields |
| StaticAssignment.PlanIsRightIff | backend/modules/lancontrol/staticassignment/service.go:33-67 | the commands delete exactly the sections with the MAC and add the one asked for, if and only if every such section but the first has a name and no other device's section has the name of the tag to be made |
| StaticAssignment.WrongSectionDeleted | backend/modules/lancontrol/staticassignment/service.go:35-42 | two unnamed sections with one MAC: the plan removes the section of another device |
| StaticAssignment.AutoTagTakesAnothersSection | backend/modules/lancontrol/staticassignment/service.go:46-48 | unique leases and an automatic tag with the name of another device's section: that section is gone as well |
| StaticAssignment.Store.ApplyStaticAssignment | backend/service/lan_static_assignment_write_store.go:36-53 | outcome and configuration for a conflict, an empty batch and a batch that runs |
| StaticAssignment.Store.Request | backend/service/lan_static_assignment_write_usecase.go:38-62 | outcome and configuration for every kind of request, in the order of the checks |
| StaticAssignment.StoredKeepsUnique | backend/service/lan_static_assignment_write_store.go:36-53 | from unique leases a stored request gives unique leases; on an error nothing changes, and otherwise the result is what was asked for exactly when no other device's section has the name of the tag to be made |
| StaticAssignment.OthersStay | backend/modules/lancontrol/staticassignment/service.go:33-67 | of the other devices' sections exactly those without that name stay |
| StaticAssignment.EveryRunKeepsLeasesUnique | backend/service/lan_static_assignment_write_usecase.go:38-62 | over every sequence of requests MACs and bound addresses stay unique; a request that is not accepted changes nothing; one that is deletes at most one section by its MAC, keeps all others but one with the name of the tag to be made, and does exactly what was asked for if and only if there is no such one |
| StaticAssignment.AcceptedIsInForce | backend/service/lan_static_assignment_write_store.go:36-53 | after an accepted request the device has exactly the section asked for, or none after a delete |
| StaticAssignment.NormalizeKeeps | backend/service/lan_static_assignment_write_store.go:84-114 | tag validation changes only the tag, its title and the auto-tag mark |
| StaticAssignment.TagChosen | backend/service/lan_static_assignment_write_store.go:84-114 | the first tag with the name gives title, name and auto-tag mark; without one the request is refused |
| StaticAssignment.RequestOutcomes | backend/service/lan_static_assignment_write_usecase.go:38-62 | which requests are refused, passed over or stored, and as what |
| StaticAssignment.StoredOutcomes | backend/service/lan_static_assignment_write_store.go:36-53 | exactly when a stored request finds its address taken, or has nothing to delete |
| StaticAssignment.DeletionsAreCommitted | backend/modules/lancontrol/staticassignment/service.go:35-42 | each deletion has its commit right behind it |
| ModelFilter.ProcessLines | backend/gen-models.py:4-19 | the loop ends and gives the header and all blocks, or nothing where the script fails |
| ModelFilter.FindEnd | backend/gen-models.py:21-24 | the first closing line below |
| ModelFilter.FindStart | backend/gen-models.py:26-32 | the first of the comment lines above, or the line itself when comments reach the top of the file |
| ModelFilter.BlocksAreDisjoint | backend/gen-models.py:7-18 | the blocks are disjoint and in order, each from its first comment to its first closing line, and every declaration line is in one |
| ModelFilter.FailsIff | backend/gen-models.py:12-14 | the script fails exactly when some struct has no closing line below its opening |
| ModelFilter.FilteringTwice | backend/gen-models.py:4-19 | filtering what was filtered changes nothing |
| ModelFilter.SourceIsFiltered | backend/gen-models.py:4-32 | a whole file and what is left of it |

## Left out

- DhnsServer.Server.PutDhnsConn: takes for granted that one connection is not put twice.
- Rendezvous.RunKeepsInv: covers runs before `Close`; connections that are stranded when `dieCh` closes are not followed.
- Message.Stream.AnswerPings: counts the pongs handed on; their way through `pongCh` and `dhnsWrite` is I/O.
- WanStats.RatesAccountForBytes: on unbounded integers; overflow of 64-bit counters, or of a difference times 1000, is not modelled.
- LanFlows.TrafficIsConservedIff: on unbounded integers, likewise; byte counters are taken to be non-negative.
- StaticAssignment.EveryRunKeepsLeasesUnique: each request runs alone, on the state that the one before left; the final commit and reload are not modelled.
- ModelFilter.FilteringTwice: on lists of lines; joining them into a file and splitting it again is I/O.
- Udhcpc is also stopped once before any request is served, when DHNS is disabled, and by a test handler that no route reaches; neither meets the event machinery.
- Deadlines, and which of several writers gets a queued message when an old one has not noticed that its connection is gone.
- Ids of dials are arbitrary strings; UUID generation is outside. Two dials with one id are covered.
- What a worker pass does between drains (interface changes, udhcpc, daemons) is I/O; its decisions are `Recovery` and `Conflict`, and its waiters and resets are events.
- Stopping DHNS is decided outside the interface planner, whose own stop flag is never set.
- Text parsing of addresses and masks, and IPv6: addresses are 32-bit numbers or absent.
- Go's `uint` is taken as 32 bits wide where only 32-bit values occur.
- isLanIP in backend/service/lan_stats_linux.go always answers yes; the model has no such test.
- The timer of the LAN statistics: it decides when a dump is taken, as in the WAN sampler; the model takes dumps at any times in order.
- The growth policy of Go slices is replaced by one of its own; contents and aliasing do not depend on it.
- The probes of the online checker (name lookup, dialing, curl) are arbitrary booleans; a feed URL that changes gives another key.
- Section positions follow go-uci and the `uci` command, which are not part of this model: an unnamed section is addressed by its place among the host sections, a command that fails leaves the configuration as it is, and the batch goes on.
- Shell quoting in planned commands, and white space outside ASCII in a MAC.
- How the list of DHCP tags is put together; requests are proved for any list, and for a list that cannot be read.
- Command execution, ubus, HTTP routing, JSON, and the Wi-Fi, disk, DDNS and web components: they run external programs, pass data through, or look values up in fixed tables.
