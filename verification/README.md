# Dafny models of the Resister repository

Resister is a gem5 fork. Its own parts are a protected garnet network-on-chip
(`src/mem/ruby/network/garnet`), a set of self-contained cryptographic programs
that serve as workloads (`cProgram/crypto-microbenchmark`), and gem5's trace and
checkpoint scripts (`util`). This project models the parts of each that carry the
hardest arguments and proves what they are for, over every input and every run.

* **Network.** `CreditProtocol` is a link with its virtual channels as a state
  machine; in every interleaving the source's assertions hold, packets arrive
  whole and in order, and the link empties. `SwitchAllocator` is the two-stage
  round-robin arbitration of a router, `SwitchFairness` its fairness, and
  `SwitchStarvation` the runs its rules allow and the routers that can starve a VC in
  them. `MeshRouting` is XY routing and the two detour algorithms: which detours are
  really taken, what they cost, and which of the routings have acyclic channel
  dependencies. `MeshDeadlock` joins the links to a whole mesh: with XY routing
  everything is always delivered, with detours the network can come to a standstill.
  `RiskDetection` is the injection detector.
* **Field arithmetic.** `Gf2Poly` is polynomials over GF(2) and multiplication
  modulo a polynomial. `Gcm`, `Ghash` and `GcmMode` build GHASH and GCM on it,
  `AesField` the byte field of AES. The byte loops are proved to compute the field
  product, which is characterised independently of them.
* **Block ciphers.** `AesSbox`, `AesSboxField`, `Aes`, `Des`, `DesKeys`,
  `DesComplement`, `Sm4`. The repository only encrypts; the models supply the
  inverses and prove them for every number of rounds and every key schedule.
* **Modes.** `Cbc` and `CbcPrograms`, `StreamModes` (CFB, OFB, CTR), with round
  trips, damage limits and the exact contents of the output buffer.
* **Hashes.** `HashPadding` (SHA-1, SHA-2, SM3 driver) and `Sha3`.
* **Scripts.** `ReorderBuffer` and `PipeView` (`o3-pipeview.py`), `Upgrader` (`cpt_upgrader.py`),
  `Varint` (`protolib.py`), `DepTrace` (dependency traces), `YearRanges`
  (`find_copyrights.py`).

`Arith`, `Bytes`, `BitStrings`, `Buffers`, `Sequences`, `Text` and `Wrappers` are
shared definitions. In-place code is modelled by methods over arrays or classes,
each proved equal to a function of the old contents; the theorems are about those
functions.

Where a property one would expect is false of the code, the model keeps the code
and proves the exact condition: `SwitchStarvation.StarvableIff`, `MeshDeadlock.CanDeadlockIff`,
`ReorderBuffer.SortedIffOnTime`, `PipeView.StopIsHarmlessIff`,
`MeshRouting.VisitsIntermediateIff`, `MeshRouting.DetourStaysInMeshIff`,
`RiskDetection.TimingIsIrrelevant`, `GcmMode.CounterReuse`,
`StreamModes.CounterBlocksEqualIff`, `HashPadding.LengthIsExactIff`,
`Varint.ExactIff32Bits`, `Varint.FileRoundTripIff`, `DepTrace.TraceRoundTripIff`
and `YearRanges.RoundTripIff`.

Where code and documentation disagree the model follows the code. The comment of
`o3-pipeview.py` asks that no instruction is more than `min_threshold` places out
of order; for the queue the proof needs that only for instructions that come late,
and no bound on `max_threshold`, but for the early stop it needs both directions and
`max_threshold + 1 >= 2 * min_threshold`. `riskFind` computes timing statistics that cannot influence the
verdict under the variant it is called with. `outportValiant` draws a row from the
number of columns.

## Model

| member | source | states |
|---|---|---|
| CreditProtocol.StepIsSafe | src/mem/ruby/network/garnet/InputUnit.cc:270-285 | in a state that satisfies the invariant, every enabled step meets the assertions the code makes there (no credit overdraft or surplus, input VC idle for a head flit and active for the others, buffer empty after a tail) and keeps the invariant |
| CreditProtocol.RunKeepsInv | src/mem/ruby/network/garnet/OutputUnit.cc:61-148 | the invariant tying credits, flits in flight, buffered flits and returning credits survives any run of interleaved steps |
| CreditProtocol.RunsAreSafe | src/mem/ruby/network/garnet/OutVcState.cc:44-78 | in every reachable state all assertions of all enabled steps hold, credits lie between 0 and the depth, no buffer exceeds its depth, credits held, flits on the wire, flits buffered and credits returning add up to the depth per VC, and the flits drained, told apart by packet and index, are a prefix of the packets given to the VC, in order |
| CreditProtocol.FlattenAt | src/mem/ruby/network/garnet/NetworkInterface.cc:455-472 | where each flit of each packet stands among all, with its packet number, its index counted from 0, only the first a head and only the last a tail |
| CreditProtocol.FlitsDiffer | src/mem/ruby/network/garnet/NetworkInterface.cc:455-472 | the flits of packets with different numbers are pairwise different, so the order of delivery in `RunsAreSafe` is the order of the packets and of the flits in them |
| CreditProtocol.StepsUseWork | src/mem/ruby/network/garnet/SwitchAllocator.cc:162-352 | every step other than accepting a new packet strictly decreases the work left on the link |
| CreditProtocol.QuietMeansDelivered | src/mem/ruby/network/garnet/NetworkInterface.cc:390-563 | a reachable link in which no such step is enabled has delivered every packet completely and has all VCs idle with all credits back: it cannot be stuck |
| CreditProtocol.RunsEnd | src/mem/ruby/network/garnet/InputUnit.cc:593-601 | without new packets every run ends within the work it started with |
| CreditProtocol.RunsDeliver | src/mem/ruby/network/garnet/OutputUnit.cc:132-148 | every run without new packets can be carried on, within the work it started with, until every packet given to the link is delivered and all credits are back |
| SwitchAllocator.PickNearest | src/mem/ruby/network/garnet/SwitchAllocator.cc:168-265 | the scan from the pointer finds the candidate nearest to it whenever there is one |
| SwitchAllocator.GrantsMatch | src/mem/ruby/network/garnet/SwitchAllocator.cc:162-267 | the grants of a cycle are a matching: an input port gets at most one output port, and it is the one its chosen VC wants |
| SwitchAllocator.WorkConserving | src/mem/ruby/network/garnet/SwitchAllocator.cc:110-267 | an input port with a ready VC asks for a port, and a port asked for is granted to someone |
| SwitchFairness.SentInSmallRouters | src/mem/ruby/network/garnet/SwitchAllocator.cc:90-267 | with at most two input ports, one output port or one VC, a VC that wants an output port in vcs * (inports + outports + 1) consecutive cycles is sent in one of them, from any pointers and whatever everything else wants |
| SwitchFairness.CycleHelps | src/mem/ruby/network/garnet/SwitchAllocator.cc:245-256 | in a router of any size, a cycle that does not send a waiting VC brings it closer provided the VC its port chose, if it lost, asks for the same again |
| SwitchFairness.NoStarvation | src/mem/ruby/network/garnet/SwitchAllocator.cc:90-267 | under that provision a VC that keeps asking is sent within vcs * vcs * inports cycles, whatever the other VCs and ports do |
| SwitchStarvation.WantsFit | src/mem/ruby/network/garnet/SwitchAllocator.cc:284-310 | the requests made are allowed: a VC whose packet has no output VC asks only for a port where its virtual network has one idle |
| SwitchStarvation.RequestsStay | src/mem/ruby/network/garnet/VirtualChannel.cc:67-76 | a request that is not granted is made again in the next cycle, unless its packet has no output VC and its virtual network has none idle at that port |
| SwitchStarvation.OwnersStayDifferent | src/mem/ruby/network/garnet/SwitchAllocator.cc:338-352 | a cycle, whoever wins it, never lets two packets hold the same output VC |
| SwitchStarvation.RunsKeepOwnersApart | src/mem/ruby/network/garnet/OutputUnit.cc:109-148 | in no run of a router do two packets hold the same output VC, nor is a held one idle |
| SwitchStarvation.LargeStarves | src/mem/ruby/network/garnet/SwitchAllocator.cc:110-146 | in every router with at least three input ports, two output ports and two VCs, for every size of a virtual network and any length, a run by these rules from the empty router in which a VC wants one output port in every cycle after a prefix and is never sent |
| SwitchStarvation.StarvableIff | src/mem/ruby/network/garnet/SwitchAllocator.cc:90-267 | over the runs by these rules, a VC that always wants one output port can be starved exactly in routers with at least three input ports, two output ports and two VCs, for every size of a virtual network |
| SwitchAllocator.Allocator.constructor | src/mem/ruby/network/garnet/SwitchAllocator.cc:60-79 | all pointers start at zero, no request is pending and all output VCs are idle |
| SwitchAllocator.Allocator.ArbitrateInports | src/mem/ruby/network/garnet/SwitchAllocator.cc:110-146 | the first stage leaves the request and the winner of every input port |
| SwitchAllocator.Allocator.ArbitrateOutports | src/mem/ruby/network/garnet/SwitchAllocator.cc:162-267 | the second stage, which removes requests, moves pointers and takes output VCs port by port, does so as if all ports decided at once; a winner that needs an output VC finds one free |
| SwitchAllocator.Allocator.Grant | src/mem/ruby/network/garnet/SwitchAllocator.cc:175-259 | serving one output port moves its pointer and its winner's, removes the request, and takes a free VC of the flit's virtual network if it needs one |
| SwitchAllocator.Allocator.VcAllocate | src/mem/ruby/network/garnet/SwitchAllocator.cc:341-352 | vc_allocate takes the first free VC; that there is one is demanded of, and proved at, its only call |
| SwitchAllocator.SelectFreeVc | src/mem/ruby/network/garnet/OutputUnit.cc:110-122 | the scan of a virtual network finds its first idle VC |
| SwitchAllocator.Allocator.Wakeup | src/mem/ruby/network/garnet/SwitchAllocator.cc:90-98 | both stages are one step of the arbitration and of the output VCs, and leave no request |
| SwitchAllocator.Scan | src/mem/ruby/network/garnet/SwitchAllocator.cc:118-144 | the loop with the wrapping index is the round-robin choice |
| MeshRouting.IdsAreCoordinates | src/mem/ruby/network/garnet/RoutingUnit.cc:378-384 | router numbers and coordinates determine each other |
| MeshRouting.NeighborIds | src/mem/ruby/network/garnet/RoutingUnit.cc:90-103 | the numbers computed for the four neighbours are those of the routers one hop away |
| MeshRouting.XyPathVisits | src/mem/ruby/network/garnet/RoutingUnit.cc:367-421 | XY routing visits exactly the routers on the two legs, row first |
| MeshRouting.XyPathLength | src/mem/ruby/network/garnet/RoutingUnit.cc:367-421 | its length is the Manhattan distance and it ends at the target |
| MeshRouting.XyPathSimple | src/mem/ruby/network/garnet/RoutingUnit.cc:367-421 | no router is visited twice |
| MeshRouting.UntaggedFollowsXy | src/mem/ruby/network/garnet/RoutingUnit.cc:485-498 | a packet without the tag takes the XY path, whatever intermediate node is at hand |
| MeshRouting.VisitsIntermediateIff | src/mem/ruby/network/garnet/RoutingUnit.cc:257-275 | a tagged packet reaches its intermediate node exactly when its destination does not lie on the XY path to that node; both journeys are given in full |
| MeshRouting.OriValiantMayMissIntermediate | src/mem/ruby/network/garnet/RoutingUnit.cc:606-686 | a choice open to the original Valiant variant for which the packet never sees its intermediate node |
| MeshRouting.ChooseFindsIff | src/mem/ruby/network/garnet/RoutingUnit.cc:531-563 | the draw indexes the list of candidates exactly when it is below their number |
| MeshRouting.DetourStaysInMeshIff | src/mem/ruby/network/garnet/RoutingUnit.cc:510-582 | an intermediate node inside the mesh is found for all sources, destinations and draws exactly when 2 <= columns <= rows (or there is one router); with one column the option list is empty |
| MeshRouting.DetourAvoidsXy | src/mem/ruby/network/garnet/RoutingUnit.cc:485-604 | a node is found exactly with two columns or more, and is never on the XY path; the journey stays inside the mesh exactly when the node is inside, and then visits it by the two XY legs |
| MeshRouting.DetourCost | src/mem/ruby/network/garnet/RoutingUnit.cc:485-604 | the extra hops are twice the rows left when source and destination share a row, and otherwise twice the columns the chosen one lies outside their span |
| MeshRouting.DetourIsSimple | src/mem/ruby/network/garnet/RoutingUnit.cc:485-604 | no router is visited twice on a detour inside the mesh |
| MeshRouting.XyRankIncreases | src/mem/ruby/network/garnet/RoutingUnit.cc:395-415 | every turn XY routing allows goes to a channel of higher rank |
| MeshRouting.XyIsAcyclic | src/mem/ruby/network/garnet/RoutingUnit.cc:367-421 | no chain of XY channel dependencies returns to a channel, in any mesh |
| MeshRouting.DetoursAreCyclic | src/mem/ruby/network/garnet/RoutingUnit.cc:485-604 | detours inside the mesh produce a dependency cycle between the four channels of a square, in every mesh that holds one |
| MeshRouting.CornerPath | src/mem/ruby/network/garnet/RoutingUnit.cc:542-582 | between opposite corners of a square an untagged packet turns by XY and a tagged one with the first draw takes the other corner |
| MeshDeadlock.MoveKeepsWithin | src/mem/ruby/network/garnet/SwitchAllocator.cc:284-313 | a flit that moves only with a free VC (head) or a credit (others) keeps every buffer within its VCs and every VC within its depth |
| MeshDeadlock.RunsStayWithin | src/mem/ruby/network/garnet/OutputUnit.cc:85-122 | in every run of the whole network no port holds more packets of a virtual network than it has VCs and no VC more flits than its depth |
| MeshDeadlock.FindMove | src/mem/ruby/network/garnet/SwitchAllocator.cc:284-313 | following what a blocked packet waits for leads to a flit that can move, if every route climbs in the order of channels |
| MeshDeadlock.NeverStuck | src/mem/ruby/network/garnet/NetworkInterface.cc:480-503 | such a network, in any state and with any number of VCs and any depth, has a flit that can move until all are delivered |
| MeshDeadlock.XyClimbs | src/mem/ruby/network/garnet/RoutingUnit.cc:367-421 | the route of an XY packet, from injection to ejection, climbs in the order of channels |
| MeshDeadlock.RunUsesWork | src/mem/ruby/network/garnet/SwitchAllocator.cc:162-267 | a run of the network makes exactly one of the hops left with each step, so every run ends |
| MeshDeadlock.XyDelivers | src/mem/ruby/network/garnet/RoutingUnit.cc:367-421 | in a mesh of any size with XY routing, whatever the packets, VCs and depths, every run can be carried on until every packet is delivered, and no run is longer than the hops to make |
| MeshDeadlock.RingIsStuck | src/mem/ruby/network/garnet/NetworkInterface.cc:480-503 | packets turning round a square, as many as its links have VCs, wait for one another for ever |
| MeshDeadlock.SquareDeadlocks | src/mem/ruby/network/garnet/RoutingUnit.cc:485-604 | in every mesh with two rows and two columns, for every number of VCs, packets with and without detour reach such a state from the empty network |
| MeshDeadlock.NoDetourInALine | src/mem/ruby/network/garnet/RoutingUnit.cc:510-582 | in a single row or column no detour inside the mesh exists |
| MeshDeadlock.CanDeadlockIff | src/mem/ruby/network/garnet/RoutingUnit.cc:257-275 | with detours the network can reach a state with undelivered packets in which nothing can move exactly in meshes with at least two rows and two columns, whatever the VCs and depths |
| MeshRouting.RouteInfo.constructor | src/mem/ruby/network/garnet/CommonTypes.hh:56-77 | a new route has no tag and no intermediate node |
| MeshRouting.Options | src/mem/ruby/network/garnet/RoutingUnit.cc:531-541 | the list of candidates is all numbers below the bound but the one skipped, in order |
| MeshRouting.OptionsAreAll | src/mem/ruby/network/garnet/RoutingUnit.cc:531-541 | every number below the bound but the one skipped is at exactly one place of the list, ascending |
| MeshRouting.OutportValiant | src/mem/ruby/network/garnet/RoutingUnit.cc:485-604 | one hop on the mutable route record is the step of the functional route, for any draw; it fails exactly when a new node is needed and the draw is beyond the options |
| RiskDetection.MajorityUnique | src/mem/ruby/network/garnet/InputUnit.hh:425-455 | at most one class of packets can hold more than half of the window, so the last match found is the only one |
| RiskDetection.CountIsMultiplicity | src/mem/ruby/network/garnet/InputUnit.hh:341-344 | the entries that compare equal to a packet are those with its source, destination and output: the count is the multiplicity of that triple |
| RiskDetection.CountFlowIsMultiplicity | src/mem/ruby/network/garnet/CommonTypes.hh:162-217 | the count of a flow in a port record is its multiplicity, and the source -1 never counts |
| RiskDetection.WindowIsSuffix | src/mem/ruby/network/garnet/InputUnit.hh:275-279 | after any number of packets the window holds the last ones, in order |
| RiskDetection.TimingIsIrrelevant | src/mem/ruby/network/garnet/InputUnit.hh:466-563 | with all variants enabled a packet is flagged exactly when the window is full and its class has the majority there or at least half of its port's record; the variance and fluctuation tests have no say |
| RiskDetection.VerdictByVariant | src/mem/ruby/network/garnet/InputUnit.hh:220-243 | the verdict for every value of the variant: only 7 enables several tests at once, every other value acts like its lowest bit |
| RiskDetection.FindMeansMajority | src/mem/ruby/network/garnet/InputUnit.hh:442-470 | the search's flag together with the comparison to the entry found means that the packet's own class has the majority |
| RiskDetection.FlaggedIff | src/mem/ruby/network/garnet/InputUnit.cc:178-236 | over whole histories: flagged exactly when the window is full and more than half of the last packets injected have its source, destination and output, or at least four of the last eight sent to its port have its source and destination, both counted as multiplicities |
| RiskDetection.HistoryRecord.constructor | src/mem/ruby/network/garnet/InputUnit.hh:261-273 | the window starts with empty entries |
| RiskDetection.HistoryRecord.UpdateHistory | src/mem/ruby/network/garnet/InputUnit.hh:275-279 | erasing the first entry and appending one is a push on the window |
| RiskDetection.HistoryRecord.Sums | src/mem/ruby/network/garnet/InputUnit.hh:426-440 | the quadratic counting loop gives every entry the size of its class |
| RiskDetection.HistoryRecord.RiskFind | src/mem/ruby/network/garnet/InputUnit.hh:414-563 | the program's verdict is the predicate on the window and the port's record |
| RiskDetection.OutportRecord.constructor | src/mem/ruby/network/garnet/CommonTypes.hh:130-146 | every port starts with eight unused entries |
| RiskDetection.OutportRecord.Update | src/mem/ruby/network/garnet/CommonTypes.hh:162-176 | a packet sent is pushed on its port's record and no other |
| RiskDetection.OutportRecord.FindMutual | src/mem/ruby/network/garnet/CommonTypes.hh:178-217 | the two scans together count the occurrences of the flow in the port's record |
| RiskDetection.CountOfRecord | src/mem/ruby/network/garnet/CommonTypes.hh:162-217 | unused entries never count: the record counts what was sent last |
| Gf2Poly.MulCommutative | cProgram/crypto-microbenchmark/aes_gcm.cc:185-214 | polynomial multiplication over GF(2) is commutative |
| Gf2Poly.MulAssociative | cProgram/crypto-microbenchmark/aes_gcm.cc:185-214 | and associative |
| Gf2Poly.ResidueUnique | cProgram/crypto-microbenchmark/aes_gcm.cc:185-214 | two polynomials below the degree of the modulus that are congruent are equal |
| Gf2Poly.ModMulIsProductModM | cProgram/crypto-microbenchmark/aes_gcm.cc:190-211 | shift-and-add with reduction at every shift yields the one polynomial below the degree of the modulus that is congruent to the product, for any modulus |
| Gcm.ShiftedRightPoly | cProgram/crypto-microbenchmark/aes_gcm.cc:195-209 | shifting the bytes right by one bit multiplies the polynomial by x and drops the top term |
| Gcm.ShiftRightInPlace | cProgram/crypto-microbenchmark/aes_gcm.cc:195-209 | the loop that carries bits between bytes, last byte first, is that shift |
| Gcm.MultiplyByX | cProgram/crypto-microbenchmark/aes_gcm.cc:195-209 | shift and conditional 0xe1 multiply by x in the field |
| Gcm.MultiplyByByte | cProgram/crypto-microbenchmark/aes_gcm.cc:191-210 | eight inner steps advance the shift-and-add by one byte of X |
| Gcm.GaloisMultiply | cProgram/crypto-microbenchmark/aes_gcm.cc:185-214 | galois_multiply is the product in GF(2^128) for all blocks |
| Ghash.GfMulIsFieldProduct | cProgram/crypto-microbenchmark/aes_gcm.cc:185-214 | the product is the unique residue congruent to the polynomial product modulo the GCM polynomial (section 6.3 of NIST SP 800-38D) |
| Ghash.GfMulCommutative | cProgram/crypto-microbenchmark/aes_gcm.cc:185-214 | field multiplication is commutative |
| Ghash.GfMulAssociative | cProgram/crypto-microbenchmark/aes_gcm.cc:185-214 | and associative |
| Ghash.GfMulAdd | cProgram/crypto-microbenchmark/aes_gcm.cc:185-214 | and distributes over exclusive or |
| Ghash.ProductBlocksCommute | cProgram/crypto-microbenchmark/aes_gcm.cc:185-214 | the bytes galois_multiply writes are determined by its arguments and do not depend on their order |
| Ghash.ProductBlocksAdd | cProgram/crypto-microbenchmark/aes_gcm.cc:185-214 | its output bytes are linear under exclusive or in each argument |
| Ghash.ProductBlocksAssociate | cProgram/crypto-microbenchmark/aes_gcm.cc:185-214 | and products of three blocks may be grouped either way |
| Ghash.HashIsHorner | cProgram/crypto-microbenchmark/aes_gcm.cc:219-227 | for any number of blocks gHash is the value of the block polynomial at the hash key |
| Ghash.HashIsLinear | cProgram/crypto-microbenchmark/aes_gcm.cc:219-227 | the hash of an exclusive or is the exclusive or of the hashes |
| Ghash.HashIgnoresTail | cProgram/crypto-microbenchmark/aes_gcm.cc:221 | bytes after the last whole block do not matter |
| Ghash.HashInto | cProgram/crypto-microbenchmark/aes_gcm.cc:219-227 | the loop over the output block computes that hash |
| GcmMode.CounterClosedForm | cProgram/crypto-microbenchmark/aes_gcm.cc:256-265 | the 32-bit counter that skips zero, in closed form |
| GcmMode.CounterReuse | cProgram/crypto-microbenchmark/aes_gcm.cc:256-265 | no counter is used twice and none is the tag's exactly when there are at most 2^32 - 2 blocks |
| GcmMode.CounterBlocksDistinct | cProgram/crypto-microbenchmark/aes_gcm.cc:247-265 | within that limit no two inputs of the block cipher are equal, the tag's included |
| GcmMode.KeyStreamAt | cProgram/crypto-microbenchmark/aes_gcm.cc:252-272 | block i of the key stream is the cipher of the IV and the four bytes of i + 2, most significant first, and after 2^32 - 1 the count goes on with 1 |
| GcmMode.CryptTwice | cProgram/crypto-microbenchmark/aes_gcm.cc:252-272 | the counter mode is its own inverse |
| GcmMode.CounterMode | cProgram/crypto-microbenchmark/aes_gcm.cc:252-272 | the loop enciphers all whole blocks and leaves the bytes after them |
| GcmMode.LengthBlockHolds | cProgram/crypto-microbenchmark/aes_gcm.cc:277-294 | the length block holds both bit lengths modulo 2^64, hence the lengths exactly when both fit |
| GcmMode.TagIsMaskedHash | cProgram/crypto-microbenchmark/aes_gcm.cc:247-308 | the tag is the hash of data, text and lengths, keyed by the cipher of the zero block, plus the cipher of the IV and the bytes 0, 0, 0, 1 |
| GcmMode.AesGcm | cProgram/crypto-microbenchmark/aes_gcm.cc:234-309 | cipher text and tag, and that no other byte of the cipher buffer changes |
| GcmMode.TagDifference | cProgram/crypto-microbenchmark/aes_gcm.cc:297-308 | two tags under one key and IV differ by the hash of the difference of the authenticated data |
| AesField.XtimePoly | cProgram/crypto-microbenchmark/aes_cbc.cc:29-31 | shift and conditional 0x1b multiply by x modulo the AES polynomial |
| AesField.GfIsFieldProduct | cProgram/crypto-microbenchmark/aes_cbc.cc:22-36 | the byte product is the unique byte congruent to the polynomial product modulo the AES polynomial |
| AesField.GfCommutative | cProgram/crypto-microbenchmark/aes_cbc.cc:22-36 | byte multiplication is commutative |
| AesField.GfAssociative | cProgram/crypto-microbenchmark/aes_cbc.cc:22-36 | and associative |
| AesField.GfDistributes | cProgram/crypto-microbenchmark/aes_cbc.cc:22-36 | and distributes over exclusive or |
| AesField.Gmult | cProgram/crypto-microbenchmark/aes_cbc.cc:22-36 | gmult computes that product |
| AesSbox.SboxInverse | cProgram/crypto-microbenchmark/aes_cbc.cc:38-55 | the S-box is a permutation with the given inverse |
| AesSboxField.SboxIsAffineInverse | cProgram/crypto-microbenchmark/aes_cbc.cc:38-55 | the table is the construction of section 5.1.1 of FIPS 197: 63 for zero, else the affine image of the inverse in the byte field, which exists and is unique |
| AesSboxField.GfByBits | cProgram/crypto-microbenchmark/aes_cbc.cc:22-36 | the field product is the sum of the doublings selected by the bits of one factor |
| Aes.ShiftRowsInverse | cProgram/crypto-microbenchmark/aes_cbc.cc:113-132 | the row shift can be undone |
| Aes.MixColumnInverse | cProgram/crypto-microbenchmark/aes_cbc.cc:134-156 | multiplying by the matrix of 14, 11, 13, 9 undoes the column mix, in the byte field |
| Aes.MixColumnsInverse | cProgram/crypto-microbenchmark/aes_cbc.cc:134-156 | for all four columns |
| Aes.InvRoundsInvert | cProgram/crypto-microbenchmark/aes_cbc.cc:166-176 | the inverse rounds with the keys backwards undo any number of rounds |
| Aes.DecryptInverts | cProgram/crypto-microbenchmark/aes_cbc.cc:166-182 | the inverse cipher undoes aesIteration for every block, key schedule and round count |
| Aes.RoundByte | cProgram/crypto-microbenchmark/aes_cbc.cc:166-182 | each byte of a round is 2, 3, 1 and 1 times the substituted bytes of a diagonal of the state, plus the key byte |
| Aes.OuterBytes | cProgram/crypto-microbenchmark/aes_cbc.cc:166-182 | the bytes after the first key and of the last round, with the key bytes 16 * round on |
| Aes.RoundKeyOfFlat | cProgram/crypto-microbenchmark/aes_cbc.cc:166-182 | round r takes the r-th of the round keys stored one after another |
| Aes.EncryptIsCipher | cProgram/crypto-microbenchmark/aes_cbc.cc:166-182 | over a schedule of round keys stored one after another the rounds are the cipher of section 5.1 of FIPS 197 |
| Aes.SubBytesInPlace | cProgram/crypto-microbenchmark/aes_cbc.cc:108-111 | the state after substitution in place |
| Aes.ShiftRowsInPlace | cProgram/crypto-microbenchmark/aes_cbc.cc:113-132 | the assignments through temporaries rotate row r by r columns |
| Aes.MixColumnsInPlace | cProgram/crypto-microbenchmark/aes_cbc.cc:134-156 | every column is multiplied by the matrix |
| Aes.AddRoundKey | cProgram/crypto-microbenchmark/aes_cbc.cc:158-161 | the round key is added to the state |
| Aes.AesIteration | cProgram/crypto-microbenchmark/aes_cbc.cc:166-182 | the in-place cipher is the composition of its rounds, and over a schedule of round keys stored one after another the cipher of FIPS 197 |
| BitStrings.SetBit | cProgram/crypto-microbenchmark/des_cfb.cc:23-28 | setbit changes exactly one bit of the buffer |
| BitStrings.PermuteInto | cProgram/crypto-microbenchmark/des_cfb.cc:169-171 | filling a buffer bit by bit from a table is the permutation and leaves nothing of the former contents |
| BitStrings.PermuteUndone | cProgram/crypto-microbenchmark/des_cfb.cc:160-196 | a table with an inverse table can be undone |
| Des.IpRows | cProgram/crypto-microbenchmark/des_cfb.cc:160-167 | the closed form of IP is the table in the program |
| Des.IpInvRows | cProgram/crypto-microbenchmark/des_cfb.cc:185-192 | likewise IP_i |
| Des.TablesAreInverse | cProgram/crypto-microbenchmark/des_cfb.cc:160-192 | each of the two tables undoes the other |
| Des.InitialBits | cProgram/crypto-microbenchmark/des_cfb.cc:159-206 | which bit of the block each bit after the initial permutation is |
| Des.RoundsReverse | cProgram/crypto-microbenchmark/des_cfb.cc:177-183 | whatever the round function, the rounds with reversed keys from the swapped halves lead back, for any number of rounds |
| Des.ReversedKeysDecrypt | cProgram/crypto-microbenchmark/des_cfb.cc:159-206 | the block function with reversed subkeys undoes itself |
| Des.EncryptIsFeistel | cProgram/crypto-microbenchmark/des_cfb.cc:159-206 | the block function is the Feistel network of FIPS 46-3: left half from right, right half from left changed by f, the last halves swapped between the permutations |
| Des.Iteration | cProgram/crypto-microbenchmark/des_cfb.cc:159-206 | the loops over the bit buffers compute that block function |
| DesKeys.KeyShift | cProgram/crypto-microbenchmark/des_cfb.cc:52-59 | one pass over 56 bits and two corrections rotate both halves left by one |
| DesKeys.GenerateSubkeys | cProgram/crypto-microbenchmark/des_cfb.cc:36-78 | subkey i is chosen from the register rotated by the shifts of rounds 0 to i |
| DesKeys.SubkeyBit | cProgram/crypto-microbenchmark/des_cfb.cc:60-77 | which bit of the key each bit of each subkey is |
| DesKeys.SixteenRoundsTurnFully | cProgram/crypto-microbenchmark/des_cfb.cc:69-71 | the rotation of the register in each of the sixteen rounds; the last is a full turn |
| DesKeys.ReversedSchedule | cProgram/crypto-microbenchmark/des_cfb.cc:69-74 | rotating right from the start gives the subkeys last to first |
| DesKeys.Pc1AvoidsParity | cProgram/crypto-microbenchmark/des_cfb.cc:37-44 | the table never names the last bit of a byte |
| DesKeys.Pc1RowsLeft | cProgram/crypto-microbenchmark/des_cfb.cc:37-44 | the closed form of pc1 is the table of the program, left half |
| DesKeys.Pc1RowsRight | cProgram/crypto-microbenchmark/des_cfb.cc:37-44 | and right half |
| DesKeys.Pc2TakesEachBitOnce | cProgram/crypto-microbenchmark/des_cfb.cc:45-50 | pc2 takes 48 different bits, 24 from each half of the register, and leaves out eight |
| DesKeys.ParityBitsAreIgnored | cProgram/crypto-microbenchmark/des_cfb.cc:37-64 | keys that differ only in those bits fill the same register |
| DesComplement.MixComplement | cProgram/crypto-microbenchmark/des_cfb.cc:79-128 | the round function does not notice when half and subkey are both complemented |
| DesComplement.ExpansionRowsLeft | cProgram/crypto-microbenchmark/des_cfb.cc:81-88 | the closed form of the expansion is the table of the program, first half |
| DesComplement.ExpansionRowsRight | cProgram/crypto-microbenchmark/des_cfb.cc:81-88 | and second half |
| DesComplement.BlockComplement | cProgram/crypto-microbenchmark/des_cfb.cc:159-206 | complementing all subkeys and the block complements the result |
| DesComplement.SubkeysComplement | cProgram/crypto-microbenchmark/des_cfb.cc:36-78 | complementing the key complements every subkey |
| DesComplement.Complementation | cProgram/crypto-microbenchmark/des_cfb.cc:36-206 | complementing key and block complements the cipher block, whatever the S-boxes |
| DesComplement.ParityBitsDoNotMatter | cProgram/crypto-microbenchmark/des_cfb.cc:36-206 | the parity bits of the key do not change the cipher |
| Sm4.EndianConvertTwice | cProgram/crypto-microbenchmark/sm4_cbc.cc:51-54 | endianConvert is its own inverse |
| Sm4.EndianConvertReverses | cProgram/crypto-microbenchmark/sm4_cbc.cc:51-54 | it reverses the four bytes of a word |
| Sm4.RunReverse | cProgram/crypto-microbenchmark/sm4_cbc.cc:70-109 | the recurrence over the mirrored last four words with reversed keys leads back to the first four, for any T and any number of rounds |
| Sm4.ReversedKeysDecrypt | cProgram/crypto-microbenchmark/sm4_cbc.cc:101-115 | sm4Iteration with reversed round keys undoes sm4Iteration |
| Sm4.FeedMixesTheKey | cProgram/crypto-microbenchmark/sm4_cbc.cc:70-72 | a round key alone goes straight to T, and each of the three words of a round can be moved into the key |
| Sm4.PlusIsXor | cProgram/crypto-microbenchmark/sm4_cbc.cc:70-72 | the addition of words is exclusive or: it commutes, equal words cancel and zero has no effect |
| Sm4.EncryptRecurs | cProgram/crypto-microbenchmark/sm4_cbc.cc:101-115 | the cipher is the last four words, reversed, of any sequence in which word i + 4 is word i plus T of the three between and round key i, from the words of the block |
| Sm4.RecurrenceExists | cProgram/crypto-microbenchmark/sm4_cbc.cc:101-115 | there is such a sequence for every start and all keys |
| Sm4.Iteration | cProgram/crypto-microbenchmark/sm4_cbc.cc:101-115 | the loop over the array of all words computes it |
| Sm4.LastFourKeys | cProgram/crypto-microbenchmark/sm4_cbc.cc:94-98 | the last four round keys are the final words of the key recurrence |
| Sm4.ScheduleIsInvertible | cProgram/crypto-microbenchmark/sm4_cbc.cc:76-99 | the last four round keys determine the key: the recurrence with reversed constants gives it back |
| Sm4.ScheduleRecurs | cProgram/crypto-microbenchmark/sm4_cbc.cc:76-99 | the round keys are the words after the first four of the same recurrence over the constants, from the key words plus the system parameter |
| Sm4.KeyExpansion | cProgram/crypto-microbenchmark/sm4_cbc.cc:76-99 | the array loop produces the round keys of the recurrence |
| Cbc.RoundTrip | cProgram/crypto-microbenchmark/aes_cbc.cc:185-198 | chaining with any invertible block function is undone, for any number of blocks |
| Cbc.DecryptAt | cProgram/crypto-microbenchmark/aes_cbc.cc:192-197 | a plain block is computed from two cipher blocks |
| Cbc.DamageIsLocal | cProgram/crypto-microbenchmark/aes_cbc.cc:192-197 | a damaged cipher block spoils at most itself and its successor |
| Cbc.SharedPrefix | cProgram/crypto-microbenchmark/aes_cbc.cc:192-197 | two messages agree on their first k cipher blocks exactly when they agree on their first k plain blocks |
| CbcPrograms.AesCbcRoundTrip | cProgram/crypto-microbenchmark/aes_cbc.cc:166-198 | AES-CBC is undone by the inverse cipher for every key schedule, IV and message |
| CbcPrograms.AesCbcInto | cProgram/crypto-microbenchmark/aes_cbc.cc:185-198 | aes_cbc enciphers all whole blocks, leaves the bytes after them, and may work in place |
| CbcPrograms.Sm4CbcRoundTrip | cProgram/crypto-microbenchmark/sm4_cbc.cc:101-133 | SM4-CBC is undone by the same block function with reversed round keys |
| CbcPrograms.Sm4CbcInto | cProgram/crypto-microbenchmark/sm4_cbc.cc:117-133 | sm4_cbc over words, likewise |
| StreamModes.CfbRoundTrip | cProgram/crypto-microbenchmark/des_cfb.cc:209-227 | CFB decryption recovers every message of any length |
| StreamModes.CfbDecryptAt | cProgram/crypto-microbenchmark/des_cfb.cc:220-224 | a plain byte depends on its cipher byte and the block of bytes before it |
| StreamModes.CfbSynchronises | cProgram/crypto-microbenchmark/des_cfb.cc:220-224 | streams that agree on one block of cipher bytes and the next byte decrypt that byte alike, whatever came before |
| StreamModes.CfbInto | cProgram/crypto-microbenchmark/des_cfb.cc:209-227 | the sliding whole-block writes produce the CFB stream, the rest of the last block after it, and touch nothing beyond |
| StreamModes.OfbTwice | cProgram/crypto-microbenchmark/aes_ofb.cc:183-197 | the mode is its own inverse |
| StreamModes.OfbStreamAt | cProgram/crypto-microbenchmark/aes_ofb.cc:190-196 | every key byte is computed from the block of key bytes (or IV) before it, never from the message |
| StreamModes.OfbRepeats | cProgram/crypto-microbenchmark/aes_ofb.cc:190-196 | once a block of the key stream recurs everything after it recurs |
| StreamModes.OfbInto | cProgram/crypto-microbenchmark/aes_ofb.cc:183-197 | the loop that feeds back through the output buffer produces that stream, with the same account of the buffer |
| StreamModes.CounterBlocksEqualIff | cProgram/crypto-microbenchmark/aes_ctr.cc:190-202 | two counter blocks are equal exactly when the positions agree modulo 2^64 |
| StreamModes.CounterBlockAt | cProgram/crypto-microbenchmark/aes_ctr.cc:190-202 | the first eight bytes of the IV are changed by the bytes of the position, most significant first, the others are kept |
| StreamModes.CtrAt | cProgram/crypto-microbenchmark/aes_ctr.cc:184-206 | byte i is changed by the first byte of the cipher of counter block i |
| StreamModes.CtrTwice | cProgram/crypto-microbenchmark/aes_ctr.cc:184-206 | the mode is its own inverse |
| StreamModes.CtrInto | cProgram/crypto-microbenchmark/aes_ctr.cc:184-206 | the loop with the wrapping 64-bit counter produces the stream and the same account of the buffer |
| HashPadding.Pad | cProgram/crypto-microbenchmark/sha2_256.cc:93-117 | the padded message is the shortest possible multiple of the block size |
| HashPadding.PaddingIsStandard | cProgram/crypto-microbenchmark/sha2_256.cc:93-117 | bit by bit: the message, a one, the least number of zeros that leaves room for the length at the end of a block, and the length (section 5.1 of FIPS 180-4) |
| HashPadding.LengthIsExactIff | cProgram/crypto-microbenchmark/sha2_256.cc:86 | the length field is the bit length exactly when that is below 2^64 |
| HashPadding.PadInjective | cProgram/crypto-microbenchmark/sha2_256.cc:93-117 | no two messages of any lengths are padded alike |
| HashPadding.AbsorbBlocks | cProgram/crypto-microbenchmark/sha2_256.cc:88-89 | the first loop folds the whole blocks and leaves the rest |
| HashPadding.Append | cProgram/crypto-microbenchmark/sha2_256.cc:97-103 | a stored byte joins the pending ones and a full buffer is compressed once |
| HashPadding.ZeroFill | cProgram/crypto-microbenchmark/sha2_256.cc:105-112 | the zero loop ends, at the right place, having fed exactly the zeros due |
| HashPadding.PadMessage | cProgram/crypto-microbenchmark/sha2_256.cc:80-112 | from an uninitialised buffer, everything before the length field is the padded message; no stale byte is hashed |
| HashPadding.Sha2With64ByteBlocks | cProgram/crypto-microbenchmark/sha2_256.cc:80-119 | the driver is pad, split, fold (sections 5.1.1 and 6.2.2 of FIPS 180-4), for every message and compression function |
| HashPadding.Sha2With128ByteBlocks | cProgram/crypto-microbenchmark/sha2_512.cc:91-162 | likewise with the loop over sixteen length bytes (section 5.1.2 of FIPS 180-4) |
| Sha3.KeccakPi | cProgram/crypto-microbenchmark/sha3_256.cc:51-59 | the cycle of 24 assignments is the simultaneous lane move of section 3.2.3 of FIPS 202 |
| Sha3.RowsInPlace | cProgram/crypto-microbenchmark/sha3_256.cc:61-70 | rewriting rows in place from two saved lanes equals the simultaneous step, whatever the lane function |
| Sha3.ChiBit | cProgram/crypto-microbenchmark/sha3_256.cc:61-70 | bit z of lane (x, y) changes exactly when the bit of its right neighbour is clear and that of the next lane set, as section 3.2.4 of FIPS 202 defines chi |
| Sha3.KeccakChi | cProgram/crypto-microbenchmark/sha3_256.cc:61-70 | keccak_chi is the step of section 3.2.4 of FIPS 202 |
| Sha3.ChiInvertible | cProgram/crypto-microbenchmark/sha3_256.cc:61-70 | chi can be undone on every state of 64-bit lanes |
| Sha3.PaddingIsStandard | cProgram/crypto-microbenchmark/sha3_256.cc:143-149 | the bytes absorbed are, bit for bit, message, 01 and pad10*1 (sections 5.1 and 6.1 of FIPS 202), for every message and rate, the one-byte case included |
| Sha3.Sha3PadInjective | cProgram/crypto-microbenchmark/sha3_256.cc:143-149 | no two messages are padded alike |
| Sha3.Sha3Driver | cProgram/crypto-microbenchmark/sha3_256.cc:133-151 | the driver absorbs exactly the blocks of the padded message |
| ReorderBuffer.Sort | util/o3-pipeview.py:242 | sorting by sequence number gives a sorted permutation |
| ReorderBuffer.RunConserves | util/o3-pipeview.py:212-244 | at every moment popped and queued instructions are those received |
| ReorderBuffer.RunLengths | util/o3-pipeview.py:212-244 | how many have been popped depends on their number alone |
| ReorderBuffer.OutputConserves | util/o3-pipeview.py:212-244 | over a whole run nothing is lost or duplicated |
| ReorderBuffer.SortedIffOnTime | util/o3-pipeview.py:212-244 | the output is sorted exactly when, at every moment of the input, every instruction still to come has as many arrived ones not after it as have been popped |
| ReorderBuffer.LatenessSuffices | util/o3-pipeview.py:45-50 | being at most min_threshold places late is enough, by counting |
| ReorderBuffer.NearlySortedComesOutSorted | util/o3-pipeview.py:45-50 | such a stream comes out sorted, and with distinct numbers it is the sorted stream |
| ReorderBuffer.OnePlaceTooLate | util/o3-pipeview.py:45-50 | the bound is tight for every pair of thresholds: a trace with one instruction min + 1 places late comes out of order |
| PipeView.NothingLostIff | util/o3-pipeview.py:154-207 | a run prints the sorted trace within the bounds exactly when no instruction from the early stop on is within them |
| PipeView.StopLosesNothing | util/o3-pipeview.py:159-176 | that is so when ticks are out of order by at most the drift and consecutive numbers by at most min_threshold places either way, with max_threshold + 1 >= 2 * min_threshold |
| PipeView.StopIsHarmlessIff | util/o3-pipeview.py:164-166 | for the stop at a sequence number this bound on the thresholds is exact: below it some such trace loses an instruction |
| PipeView.TickStopIsHarmlessIff | util/o3-pipeview.py:154-207 | the stop at a tick loses nothing of any trace with ticks out of order by at most k exactly when k is at most the drift |
| PipeView.PrintedIsComplete | util/o3-pipeview.py:45-66 | such traces are printed sorted and complete within the bounds |
| PipeView.PrintedAre | util/o3-pipeview.py:236-265 | which instructions are printed and how often: those before the stop whose number, tick and retirement lie within the bounds that are set, the bounds included |
| PipeView.StopIsFirst | util/o3-pipeview.py:161-178 | the run stops at the first instruction more than the drift past the last tick or more than max_threshold past the last number |
| PipeView.PrintQueue.constructor | util/o3-pipeview.py:51-66 | an empty queue |
| PipeView.PrintQueue.QueueInst | util/o3-pipeview.py:212-227 | appending and flushing the list is a push |
| PipeView.PrintQueue.PrintInsts | util/o3-pipeview.py:231-277 | sorting, popping and filtering is a drain, and what is printed is the filtered part |
| PipeView.PrintQueue.Process | util/o3-pipeview.py:154-207 | a whole trace is queued up to the early stop and printed as specified |
| Upgrader.BlockedNeverApplied | util/cpt_upgrader.py:153-157 | no valid order ever applies a member of a mutually waiting set |
| Upgrader.ApplyBatch | util/cpt_upgrader.py:274-279 | applying a ready batch in any order keeps the log valid and the tags right |
| Upgrader.Process | util/cpt_upgrader.py:265-279 | the loop ends with every missing upgrade applied once after its dependencies, or stops at a set that waits for itself |
| Upgrader.StuckIffNoOrder | util/cpt_upgrader.py:265-279 | it succeeds exactly when some order satisfies all dependencies |
| Upgrader.StuckIsExact | util/cpt_upgrader.py:269-273 | the tags it gives up on are exactly those no valid order can ever apply |
| Upgrader.Confluent | util/cpt_upgrader.py:265-279 | the outcome does not depend on the order within batches |
| Upgrader.StuckIffCycle | util/cpt_upgrader.py:265-279 | with closed dependencies it is stuck exactly when there is a dependency cycle among the missing tags |
| Upgrader.Resolve | util/cpt_upgrader.py:186-202 | resolution fails exactly when a named tag does not exist and otherwise adds the reversed forward dependencies, leaving the dependencies closed |
| Varint.DecodeOfEncode | util/protolib.py:100-159 | what decoding makes of every encoded number, with anything after it: the low 32 bits, made negative from 2^63 on, and an error from 2^70 on |
| Varint.EncodeAt | util/protolib.py:147-159 | byte i of an encoding holds seven bits of the number, lowest first, and all bytes but the last are marked |
| Varint.EncodeLength | util/protolib.py:147-159 | an encoding has as many bytes as the number needs |
| Varint.MaskedIs | util/protolib.py:100-145 | the value read is the one number congruent to the collected bits modulo 2^32 that is negative exactly from 2^63 on |
| Varint.ExactIff32Bits | util/protolib.py:100-159 | the number comes back exactly when it has 32 bits |
| Varint.DecodeConsumes | util/protolib.py:112-128 | one to ten bytes are consumed |
| Varint.TruncatedIsEndOfFile | util/protolib.py:113-115 | a file cut inside a varint is reported as its end |
| Varint.MessageReadBack | util/protolib.py:131-168 | a message is read back whole, lost, or cut to its length modulo 2^32, by its length alone |
| Varint.FileRoundTripIff | util/protolib.py:131-168 | a file of messages is read back exactly when none is empty or has 2^32 bytes or more |
| Varint.EmptyMessageEndsFile | util/protolib.py:138-139 | an empty message ends the file for the reader |
| Varint.EncodeVarint32 | util/protolib.py:147-159 | the loop writes the encoding |
| Varint.DecodeVarint32 | util/protolib.py:100-128 | the loop reads it, reports how many bytes, and treats end of file and overlong input as the program does |
| Varint.ReadMessage | util/protolib.py:131-144 | decodeMessage on a file object |
| Varint.WriteMessage | util/protolib.py:162-168 | encodeMessage on a file object |
| DepTrace.LineTakenApart | util/encode_inst_dep_trace.py:157-158 | a printed line splits into the fields and lists it was made of |
| DepTrace.LineIgnoresBlanks | util/encode_inst_dep_trace.py:157-158 | blanks, tabs and line ends around a line do not change what is read |
| DepTrace.DepsReadBack | util/encode_inst_dep_trace.py:194-205 | dependency lists come back complete and in order, the empty one included |
| DepTrace.LineRoundTripIff | util/decode_inst_dep_trace.py:163-214 | a record is read back, with pc and weight defaulted, exactly when loads and stores carry address, size and flags, computations carry none, and the type is not INVALID |
| DepTrace.TraceRoundTripIff | util/encode_inst_dep_trace.py:156-208 | the same for whole traces |
| DepTrace.PrintDeps | util/decode_inst_dep_trace.py:199-212 | the loop writes every dependency with a comma before it |
| DepTrace.PrintRecord | util/decode_inst_dep_trace.py:166-212 | the writes of one record give the line; at a type without a name they stop after three fields |
| YearRanges.RangesCorrect | util/find_copyrights.py:192-215 | the ranges hold exactly the dates, ascend, and have gaps between them, so none can be longer |
| YearRanges.RangesUnique | util/find_copyrights.py:192-215 | two ascending lists of non-adjacent ranges that hold the same dates are equal |
| YearRanges.RangesAreTheOnes | util/find_copyrights.py:192-215 | so the ranges printed are the only list of maximal ranges that holds exactly the dates |
| YearRanges.PrintDates | util/find_copyrights.py:192-217 | the loop with an open range prints those ranges and fails only on the empty list |
| YearRanges.ReadDates | util/find_copyrights.py:112-129 | process_dates collects what the pieces contribute |
| YearRanges.MatchFormat | util/find_copyrights.py:109-119 | which printed ranges the pattern matches and what it reads from them |
| YearRanges.MatchSpaced | util/find_copyrights.py:109-119 | four digits, blanks, a dash, blanks and four digits are read as the range between the two numbers |
| Text.ParseIntForms | util/find_copyrights.py:122-126 | what int accepts and yields: digits, or a sign and digits, and nothing else |
| YearRanges.PieceOfFormat | util/find_copyrights.py:116-127 | a printed range contributes only its own dates, all of them when readable, and never its last one otherwise |
| YearRanges.RoundTripIff | util/find_copyrights.py:109-217 | no date is invented, and all come back exactly when every range of two or more dates lies within 1000 to 9999 |

## Left out

- CreditProtocol.StepIsSafe: time stamps, link latencies and the detector's delays are not modelled; a sender is taken to have the rest of an accepted packet at hand.
- MeshRouting.OutportValiant: routing tables, the other routing algorithms and the network's turn checks on input ports are not modelled; the random draw is a parameter.
- MeshRouting.DetourAvoidsXy: when the chosen node is outside the mesh, the look-up of the missing output port at the edge (RoutingUnit.cc:481) is not modelled.
- RiskDetection.HistoryRecord.RiskFind: the timing statistics are taken as the outcomes of their tests, and the long-term history table is not modelled; the flow looked up is the packet's own, as in the call.
- SwitchAllocator.Allocator.Wakeup: that a VC may send (a free output VC, a credit, the order within a virtual network) is an input of each cycle, and credits are counted in CreditProtocol only.
- SwitchStarvation.LargeStarves: link, router and credit latencies are not modelled, so an output VC may be idle again, and the next packet of an input VC ready, in the next cycle; a packet that holds an output VC but has no credit counts as not ready; the order within ordered virtual networks is not modelled, and in the run shown no two VCs of a port ask for the same output port.
- MeshDeadlock.XyDelivers: flits move one at a time with credits known at once (the credit loop is CreditProtocol), and the protocol buffers at the destinations are taken to accept every packet.
- The time-division input unit and the delay queues of the network.
- GcmMode.AesGcm: cipher bytes after the last whole block are hashed as they are found, as in the code, so data whose lengths are multiples of 16 is what the mode protects.
- The key expansion of AES, the S-boxes and P permutation of DES, the tau and L transformations of SM4 and all hash compression functions: the theorems hold for every such function, so they are parameters or key schedules are arbitrary.
- Sha3.KeccakChi: theta, rho and iota work lane by lane without reuse of overwritten lanes and are not modelled.
- Pointer casts, alignment and host byte order: buffers are byte or word sequences in the little-endian layout the code assumes.
- The sibling programs that repeat these ciphers, modes and drivers (aes_ecb, des_cbc, des_ctr, des_ecb, des_ofb, sm4_ctr, sm4_ecb, sm4_ofb, sha1, sm3, sha3_512) and all main functions.
- Upgrader.Process: downgraders are not modelled, since the comment on them and `ready` disagree; neither are the legacy version chain, `exec` of upgrader files and configuration parsing.
- PipeView.PrintQueue.Process: skipping to the first tick or number, drawing, colours and the tick arithmetic of single lines; the records of the trace are taken as parsed.
- Varint.MessageReadBack: the protobuf parser is not modelled, a message is its bytes; lengths are below 2^63, as Python's are.
- DepTrace.LineRoundTripIff: fields never printed (virtual address, address space) are not part of a record; whether Python's `int` accepts underscores or non-ASCII digits is not modelled.
- YearRanges.PrintDates: takes the sorted list of the set, sorting is Python's.
- Python's gzip and magic-number handling, argument parsing and printing in all scripts.
- The rest of gem5, the configuration scripts, and the analysis scripts.
