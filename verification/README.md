# Verified model of backtrace

This project models the logic of backtrace, a Go program that traces return routes to Chinese carriers, classifies
them, and keeps the registries that classification needs. It has six parts, each in its own modules.

- **Traceroute engine** (`Tracer.dfy`, `Interleaving.dfy`, `Demultiplexing.dfy`, `OneProbe.dfy`,
  `Replies.dfy`, `Distances.dfy`, `Closing.dfy`, `Context.dfy`, `TraceLoop.dfy`, `HopTable.dfy`).
  `Tracing` has the classes `Session` and `Tracer` with the source's fields and steps. `Interleaving` is the
  concurrent system as a state machine: sessions open and close, ids are issued, packets fail or are sent, probes are
  appended later, and an arriving answer visits the sessions of its destination one by one while other events happen in
  between. `Demultiplexing` proves what holds over all its runs,
  `OneProbe` exactly which probes an answer consumes, `Replies` where its replies go, `Distances` what they say, and
  `Closing` that nothing reaches a closed session. `TraceLoop` is one trace against arbitrary interference, with its context and
  its timer. `Hops` turns replies into the list of hops. Echo and time-exceeded messages play the roles that
  RFC 792 and sections 3.3 and 4.2 of RFC 4443 give them; the model starts from their decoded fields.
- **Upstream walk** (`Upstreams.dfy`): chains of unique successors over an arbitrary, possibly cyclic graph.
- **Route reports** (`MergeHops.dfy`, `Classification.dfy`, `Latency.dfy`, `RouteReport.dfy`, `RouteTarget.dfy`):
  attempts with fallback, collectors under any schedule and cancellation, the vote between attempts,
  the conservative classification, and latency statistics over exact reals.
- **Prefix registry** (`PrefixLookup.dfy`, `PrefixSnapshot.dfy`, `PrefixUpdate.dfy`, `PrefixRegistry.dfy`): lookup in
  an unordered table, the canonicalising reader, the snapshot writer over a directory that can fail at any point, and
  the table in use.
- **/24 lists** (`PrefixList.dfy`): the blocks an IPv4 network covers (prefix notation of section 3.1 of RFC 4632).
- **Canonical tables** (`Relationships.dfy`, `AsnMetadata.dfy`): deduplication, normalisation of ASN text, and lookup.

`Lists.dfy`, `Sorting.dfy`, `Text.dfy`, `Bits.dfy` and `Decimal.dfy` hold sequences, sorting, text, bits and decimal
numbers, as the Go standard library treats them.

Modelling conventions. Every iteration over a Go map picks the next key arbitrarily, every `select` picks any ready
branch, and cancellation and deadlines may strike at any turn, so results hold for all orders and schedules. Code that
updates fields or runs loops is a class or a method proved against a specification function or relation; the lemmas are
about those. The probe number `serial`, the fields `appended`, `expired`, `matched`, `hits`, `delivered` and `overflow`
of a session, and `fate`, `issued`, `arrivals`, `hits`, `got` and `lost` of the state machine, are history: they record
what happened and decide nothing. What a specification function computes is also stated without it, in the terms of the
inputs, mostly by a lemma whose name ends in `Exactly`. Which packets can be sent is a parameter of a trace
(`Env.socket`), and so is which reading or replacing of a file fails (`Directory.fails`). Library parsers and printers
(addresses, networks, JSON, digests, timestamps) are function parameters, and the few laws needed of them are
preconditions: `CaseBlind`, `Prints`, `Faithful`, `Masked`.

## What the proofs found

- **With several sessions, demultiplexing needs a wider window than the pending probes.** An answer visits the sessions
  of its destination one after the other, and only that session is locked meanwhile. After a first session has given up
  its probe, 65536 further ids can be issued before the second session is visited, and the same answer then matches a
  second probe although the pending probes never spanned the id space (`Demultiplexing.PendingWindowNotEnough`).
  `OneProbe.OneProbeExactly` is the exact condition, on what is pending when the answer arrives and what is appended
  before each visit. With one session the pending window is enough (`OneProbe.OneSessionOneProbe`);
  `Demultiplexing.OneProbePerAnswer` gives a window that is enough for any number.
- **A duplicate can consume a probe under the pending window.** A probe that was taken is no longer pending, so a later
  one with its id may be the only pending probe, and a second copy of the old answer takes it
  (`Demultiplexing.DuplicateCanTake`). `OneProbe.NothingTakenExactly` is the exact condition, and
  `OneProbe.DuplicateTakesNothing` holds while the pending probes stay within 65535 of the one taken.
- **The upstream walk of the second branch can go on for ever.** It has no record of visited networks that are not
  Tier1, so two networks that are each other's only upstream trap it (`Upstreams.WalkCanDiverge`).
  `Upstreams.HaltsExactly` gives the exact condition, and `FindUpstreams` requires it of the direct upstreams.
- **Writer and reader count differently.** The writer records the number of non-blank lines, the reader compares with
  the number of distinct lower-case values. For a snapshot that the drop guard keeps, the pair left by a successful run
  is accepted if and only if its lines are good and distinct up to case (`PrefixUpdate.PairAccepted`); an accepted old
  pair with a repeated line becomes a rejected one (`PrefixUpdate.KeptPairRejected`). From clean snapshots
  on this never happens, over any number of runs (`PrefixUpdate.RunsKeepClean`).
- **The tail collapse leaves an all-target list alone.** When every hop shows only the target, the loop never reaches
  the collapsing branch and several target-only hops remain (`Hops.CollapseShape` is an if-and-only-if).
- **Some text fragments see spelling.** Call a fragment stable when it begins all or none of the texts the parser reads
  as one address. A table whose lower-case fragments are all stable answers every spelling of an address alike
  (`PrefixLookup.StableTableIgnoresSpelling`), and one fragment alone does so if and only if it is stable
  (`PrefixLookup.SpellingExactly`). The fragment 2001:7f8:43 of bk/prefix/as58453.txt is not, because a leading zero can
  be written in its second group (`PrefixLookup.FragmentSeesSpelling`). The repository's own callers print addresses in
  canonical form (bk/trace_ipv6.go:73, bk/route_report.go:309), so they ask with one spelling only. A raw fragment with
  an upper-case letter matches nothing at all (`PrefixSnapshot.UpperFragmentIsSilent`), while its parsed form may.
- **Deduplication is idempotent even without an injective key.** Injectivity on the inputs is needed exactly for keeping
  every kind, ASN and exchange id (`Relationships.TriplesKeptExactly`). A colon in the ASN can break it
  (`Relationships.ColonMerges`), but callers pass digits or an empty ASN (bgptools/relationships.go:338-350, 457), so
  for them nothing is lost (`Relationships.ColonFreeKeepsAll`).

## Model

| member | source | states |
|---|---|---|
| Tracing.HandlePartitions | bk/trace_common.go:417-435 | every probe the list held goes exactly one way: kept, matched, or dropped as expired; as multisets, so nothing is lost or doubled |
| Tracing.HandleGroups | bk/trace_common.go:417-435 | in the raw conditions of the loop: expired when more than the timeout has passed since sending, tested first; of the rest, matched when the id is the answer's or the answer is IPv6; otherwise kept |
| Tracing.GroupsInOrder | bk/trace_common.go:417-435 | kept and matched probes stand in the order of the list |
| Tracing.ReplyExactly | bk/trace_common.go:417-457 | a handle call makes a reply exactly when some unexpired probe matches, and the reply answers the last of them, with its distance and its RTT |
| Tracing.IPv6AnswerEmpties | bk/trace_common.go:424-431 | an IPv6 answer leaves no pending probe behind: all are matched or dropped |
| Tracing.Session.BeginHandle | bk/trace_common.go:399-446 | up to the unlock: the list becomes the kept probes in their old order; a match makes one reply, and it answers the last unexpired matching probe: that answer's node, the time since that probe, and t - q + 1 hops for a probe of TTL t quoted with TTL q, at least 1; appended == pending + expired + matched and matching calls == received + buffered + lost + still to be sent keep holding |
| Tracing.Session.Handle | bk/trace_common.go:399-462 | the two halves without interruption: probes filtered, at most one reply, buffered only below 64 |
| Tracing.Session.TakeMatches | bk/trace_common.go:407-436 | the in-place filter over the pending list computes the kept probes and the last match |
| Tracing.Session.SendReply | bk/trace_common.go:451-461 | the non-blocking send, at any later step: the reply goes to the end of the channel when fewer than 64 are buffered, otherwise the channel stays as it is and the reply is counted lost; the probes stay as they are |
| Tracing.Session.Append | bk/trace_common.go:376-379 | the second half of Ping adds the probe at the end and to the history, and touches nothing else |
| Tracing.Session.IsDone | bk/trace_common.go:388-397 | true exactly when no pending probe has a TTL at most the argument |
| Tracing.Session.Receive | bk/trace_common.go:382-385 | takes the oldest buffered reply, which is in range, and adds it to the replies received |
| Tracing.Session.constructor | bk/trace_common.go:360-368 | a new session has no probes, an empty channel and an empty history |
| Tracing.Tracer.SendRequest | bk/trace_common.go:260-292 | every request, sent or failed, uses up one number of the 32-bit wrapping counter; the id is the number issued so far, truncated to 16 bits |
| Tracing.WireId | bk/trace_common.go:260-263 | truncating the wrapped 32-bit counter to 16 bits is truncating the unwrapped count: the id sequence has no seam at the wrap |
| Tracing.Tracer.AddSession | bk/trace_common.go:294-301 | the session is appended to the list of its own address, and no other list changes |
| Tracing.Tracer.RemoveSession | bk/trace_common.go:303-313 | exactly that session leaves the list of its address, the others keep their order, and other addresses are untouched |
| Tracing.RemoveFirstDistinct | bk/trace_common.go:303-313 | deleting the first occurrence from a list without repeats removes the entry altogether and keeps the list free of repeats |
| Tracing.Tracer.ServeReply | bk/trace_common.go:315-343 | uninterrupted: every session registered for the destination, and no other, handles the answer once, with all its invariants |
| Interleaving.StepKeepsInv | bk/trace_common.go:260-462 | every event in every order (open, close, issue, failed send, append, arrival of an answer, its visit to one session, its send on the channel, its end, receive) keeps: a session holds exactly the probes pending there, once each, with ids of their serials; probes in flight, pending, dropped and taken are disjoint; a taken probe belongs to a session of the answer's destination and carries an IPv4 answer's id; channels hold at most 64 |
| Interleaving.VisitMoves | bk/trace_common.go:336-341 | a visit changes the fate of no probe but those pending in the visited session, and makes them dropped, or taken by this answer with its id |
| Interleaving.VisitSerials | bk/trace_common.go:417-435 | on a list without repeated serials the kept, matched and dropped probes split the serials, disjointly |
| Interleaving.CloseKeepsInv | bk/trace_common.go:303-313 | closing a session keeps the invariant, with its probes still accounted for |
| Interleaving.IssueKeepsInv | bk/trace_common.go:260-263 | issuing an id keeps the invariant across the wrap of the 32-bit counter |
| Interleaving.AppendKeepsInv | bk/trace_common.go:371-380 | appending keeps the invariant although other events may lie between sending and appending |
| Demultiplexing.FateStep | bk/trace_common.go:364-462 | in one step a probe can only go from in flight to unsent or pending, and from pending to dropped or taken in its own session |
| Demultiplexing.FateFinal | bk/trace_common.go:364-462 | over any run: once taken, dropped or unsent, a probe stays so; no probe is consumed twice, not even by two answers |
| Demultiplexing.AppendedAccounted | bk/trace_common.go:364-462 | over any run: an appended probe is in its session's list exactly when pending, and otherwise dropped there or taken there |
| Demultiplexing.AnswersMatchRequests | bk/trace_common.go:315-343 | over any run: probes taken by IPv4 answers with one id were sent with that id to that destination; one probe is taken by one answer; two different ones have serials at least 65536 apart, so there is only one among the first 65536 issued |
| Demultiplexing.OneProbePerAnswer | bk/trace_common.go:315-343 | over any run in which the probes pending at a destination or taken by an answer still being served there span fewer than 65536 numbers: each IPv4 answer consumes at most one probe over all sessions of the destination, and it is one sent with its id |
| Demultiplexing.PendingWindowNotEnough | bk/trace_common.go:332-341 | for every timeout, a run of more than 65536 events in which pending probes never span 65536 and one answer still consumes two: the window must include what the answer has already taken |
| Demultiplexing.DuplicateCanTake | bk/trace_common.go:336-341 | for every timeout, a run in which pending probes never span 65536 and two equal IPv4 answers, one served after the other, consume a probe each |
| OneProbe.AnswerConsumes | bk/trace_common.go:315-343 | from its arrival to the end of its service, with no other answer for its destination served in between (each socket has one reader): an answer consumes exactly the unexpired matching probes that are pending in the destination's sessions when it arrives, and those appended to one of them before its visit |
| OneProbe.OneProbeExactly | bk/trace_common.go:315-343 | so it consumes at most one if and only if at most one such probe is pending at its arrival or appended before its visit |
| OneProbe.VisitTakesOne | bk/trace_common.go:417-435 | while the probes pending at a destination span fewer than 65536 numbers, a visit of an IPv4 answer takes at most one probe |
| OneProbe.OneSessionOneProbe | bk/trace_common.go:315-343 | over any run in which answers for a destination arrive while at most one session is registered for it, the window over the pending probes alone is enough: each IPv4 answer consumes at most one probe |
| OneProbe.NothingTakenExactly | bk/trace_common.go:315-343 | an answer consumes nothing, as a duplicate should, if and only if no such probe is pending at its arrival or appended before its visit |
| OneProbe.DuplicateTakesNothing | bk/trace_common.go:315-343 | over any run: once a probe is taken, and while the probes pending at the destination stay within 65535 of its number, IPv4 answers with its id take nothing more there; a later duplicate takes nothing at all, whatever the sessions |
| OneProbe.VisitTakes | bk/trace_common.go:336-341 | a visit adds to what its answer has taken exactly the unexpired matching probes of the session visited |
| Replies.RepliesAccounted | bk/trace_common.go:399-462 | over any run, in every session, with visit and send as separate steps: matching visits == received + buffered (at most 64) + lost + made but not yet sent, and every reply buffered or to be sent has RTT <= timeout and hops >= 1 |
| Replies.StepAccounted | bk/trace_common.go:399-462 | every event keeps these counts and ranges |
| Replies.VisitInRange | bk/trace_common.go:417-457 | a visit makes only replies in range: expiry is tested before matching, and hops are raised to 1 |
| Distances.RepliesTellTheTruth | bk/trace_common.go:371-462 | over any run, without naming the code: every reply a session has received or buffered answers a ping of that session which some answer took; it names that answer's node, its RTT is answer time minus ping time, and for the ping Ping(k) quoted with TTL q it tells k + 2 - q hops, at least 1 |
| Distances.EmissionsTellTheTruth | bk/trace_common.go:371-462 | so does every reply made and still to be sent, for the answer that made it |
| Distances.PingDistance | bk/trace_common.go:371-446 | so Ping(k), answered with TTL 1, tells a distance of k + 1 |
| Distances.QueueGrowsAtTheEnd | bk/trace_common.go:382-385 | first in, first out: in every step, received followed by buffered replies grow only by the reply just sent, at the end, and only below 64 buffered |
| Distances.ProbesStep | bk/trace_common.go:371-446 | in every step a session's pending probes stay as they are, gain the appended probe at the end, or are filtered by the answer that visits; a visit makes a reply exactly if a probe matched, and it answers the last of them |
| Closing.RegistrySteps | bk/trace_common.go:294-313 | in every step: opening appends a new empty session to the list of its address, closing takes that session out and keeps the order, and nothing else changes who is registered |
| Closing.CloseTakesOut | bk/trace_common.go:303-313 | closing a session takes it off every list, and no answer or reply is on its way to it |
| Closing.ClosedStaysOut | bk/trace_common.go:303-343 | over any run after a session was closed: no reply is added to what it received or has buffered, and its pending probes are neither taken nor dropped |
| OneProbe.TakenOnVisit | bk/trace_common.go:336-341 | no other event makes an answer take a probe |
| TraceLoop.BoundIsLeast | bk/trace_common.go:80-84 | the bound is the least distance at which the target answered, never rises as replies come in, and stays at least 1 |
| TraceLoop.Ping | bk/trace_common.go:371-380 | a successful ping appends exactly one probe, with a TTL one above its argument; a failed one appends none; it fails exactly when the packet cannot be sent |
| TraceLoop.SendRound | bk/trace_common.go:72-89 | one round pings with 1, 2, 3 and so on: unless it is stopped, the probes it appends have TTL 2, 3, 4 in order without a gap, at least up to min(MaxHops, bound at its end) and at most up to min(MaxHops, bound at its start) of them; the callbacks are exactly the replies received, each once and in order |
| TraceLoop.Drain | bk/trace_common.go:90-109 | the drain sends nothing, ends, takes at most as many replies as are pending, being sent, or buffered, hands over each once and in order; it leaves by isDone only when no pending probe has a TTL at most the bound, by the timer only when that ran out, and by cancellation only when the context ended |
| TraceLoop.Trace | bk/trace_common.go:61-110 | for any timing, cancellation, send failure, half-done handle calls, and other sessions opened and closed meanwhile: a trace that ends done or timed out has sent Count full rounds, each TTL 2, 3, 4 and so on at least up to min(MaxHops, final bound), and nothing else; it times out, is cancelled or fails only when the timer, the context or a packet did; the callbacks are the replies received, in order; callbacks plus buffered replies plus replies being sent <= appended probes <= pings <= Count * MaxHops; the bound is the least target distance; the session ends unregistered, and if no other session came or went the registry of the address is as before |
| TraceLoop.Interference | bk/trace_common.go:260-343 | what other goroutines may do meanwhile: the session stays registered, gets no probe and no callback, and can deliver no more than before |
| TraceLoop.HandleShrinks | bk/trace_common.go:399-462 | a handle call makes at most one reply, and keeps fewer probes whenever it makes one |
| Hops.TableOfReplies | bk/trace_common.go:529-571 | for every stream of replies: distances are distinct, every hop has pairwise distinct node addresses, and every reply is filed exactly once under its own distance and address |
| Hops.RepliesInOrder | bk/trace_common.go:529-543 | the RTTs filed under a distance and an address are those of the replies with both, in the order of the replies |
| Hops.NodesInOrder | bk/trace_common.go:529-543 | later replies only add nodes after those of earlier ones: the nodes of a hop are in order of first reply |
| Hops.HopTable.Add | bk/trace_common.go:529-543 | the callback files the reply in the first hop of its distance and the first node of its address, creating them only if missing |
| Hops.HopTable.Touch | bk/trace_common.go:557-566 | finds the hop of a distance or appends an empty one |
| Hops.ByDistanceOrders | bk/trace_common.go:573-575 | sorting by distance gives a strictly increasing table with the same hops, and only one result is possible, stable sort or not |
| Hops.HopTable.CollapseTail | bk/trace_common.go:576-593 | the backward loop with its index changes, its append through the shared node and its truncation computes the collapsed table |
| Hops.CollapseBag | bk/trace_common.go:576-593 | the collapse keeps every (address, RTT) exactly as often as before |
| Hops.CollapseShape | bk/trace_common.go:576-593 | every hop before the trailing target-only ones is unchanged, the first of those keeps its distance, the table stays valid and increasing, it is unchanged when all or none of its hops are trailing target-only ones, and it ends in at most one target-only hop if and only if some hop is not target-only (or there was at most one hop) |
| Hops.TailInOrder | bk/trace_common.go:576-593 | the RTTs of the merged hop are those of the tail in the order of its hops |
| Hops.TracedBag | bk/trace_common.go:552-595 | the hops of a trace count every reply exactly once under any key that does not look at the distance |
| Hops.TraceContext | bk/trace_common.go:552-595 | on success or deadline: strictly increasing distances, distinct nodes in each hop, and every reply's (address, RTT) counted exactly once; on any other error nothing |
| Upstreams.HaltsExactly | bgptools/pop.go:297-339 | on every graph: the walk of one direct upstream ends if and only if it ends within |nodes| + 1 moves, if and only if it never visits a network twice |
| Upstreams.WalkCanDiverge | bgptools/pop.go:294-340 | a graph with two direct upstreams and two networks that are each other's only upstream: for every k the walk makes more than k moves |
| Upstreams.LongWalkRevisits | bgptools/pop.go:297-339 | a walk longer than the number of nodes has come back to a network |
| Upstreams.FollowChain | bgptools/pop.go:252-293 | with one direct upstream the loop ends on every graph, cyclic or not; the result is a repeat-free path of unique successors that are known nodes, and it stops only where it cannot be continued |
| Upstreams.IndirectSound | bgptools/pop.go:294-341 | with several: each direct upstream adds at most one entry; it is a Tier1 network, reached from that upstream by unique successors through unlisted non-Tier1 nodes; no indirect entry repeats an earlier ASN |
| Upstreams.IndirectComplete | bgptools/pop.go:294-341 | none is missed: every Tier1 network that some direct upstream reaches that way is listed |
| Upstreams.EntryExactly | bgptools/pop.go:86-105 | the fields of an entry: name and number of its card, direct or not, Tier1 exactly for a white card with the stroke #005ea5, and each type label if and only if its condition on these and the name tables |
| Upstreams.AddIndirect | bgptools/pop.go:295-340 | the nested loops compute exactly those entries, given that the walks halt |
| Upstreams.WalkToTier1 | bgptools/pop.go:296-339 | one walk finds the Tier1 end of the chain unless it is already listed, also while earlier walks have added entries |
| Upstreams.FindUpstreams | bgptools/pop.go:228-343 | the whole function: nothing without a direct upstream, the chain for one, the direct entries followed by the indirect ones for several |
| Upstreams.EndReached | bgptools/pop.go:297-339 | an end of a walk is really reached by its moves |
| Upstreams.SuccessorsOf | bgptools/pop.go:255-260 | the set of targets of the edges that leave a network |
| Upstreams.FindCard | bgptools/pop.go:272-278 | the first node card of a network |
| Merging.MergeHops | bk/utils.go:228-298 | for every order of map iteration: the length is the longest attempt's, and at each position the hop is the earliest of a most frequent key, and the very first when three or more keys occur once each |
| Merging.ChooseHop | bk/utils.go:260-295 | the vote at one position, with the map walked in any order |
| Merging.GroupByKey | bk/utils.go:261-273 | the groups hold, for every first address (or none), the hops with it, in attempt order |
| Merging.StrictMajorityWins | bk/utils.go:274-295 | a key with more than half of the hops at a position wins there, and any two merges agree on the hop |
| Merging.MajorityAddress | bk/utils.go:228-298 | an address that most attempts saw first at a position is first there in every merge, and a position most attempts left without an answer has none |
| Merging.ColumnConcat | bk/utils.go:244-259 | the hops of a position stand in the order of the attempts |
| Merging.ChoiceUniqueExactly | bk/utils.go:274-295 | every map order chooses the same hop at a position if and only if one key is more frequent than every other, or all occur once and there are not exactly two |
| Merging.MergesAgree | bk/utils.go:244-296 | any two merges agree at every such position |
| Merging.MergeOfEqual | bk/utils.go:228-298 | merging any number of equal attempts returns that attempt |
| Merging.MergedFromAttempts | bk/utils.go:244-296 | every merged hop is some attempt's hop at the same position |
| Merging.SingleAttempt | bk/utils.go:232-234 | a single attempt is its own merge, by the same rule |
| Classification.RouteAsnPosition | bk/route_classification.go:198-217 | the loop computes the first index and the count of hops that show an ASN, trimmed and up to case folding |
| Classification.FirstMeaning | bk/route_classification.go:198-217 | the first index is the least one that shows the ASN, and negative exactly when none does |
| Classification.CountMeaning | bk/route_classification.go:198-217 | the count is at most one exactly when no two different hops show the ASN |
| Classification.IrrelevantHopsIgnored | bk/route_classification.go:32-155 | two lists that agree on the hops showing the carrier's own ASNs classify alike: inserting or deleting other hops changes nothing |
| Classification.TelecomExactly | bk/route_classification.go:46-90 | every Telecom outcome if and only if a condition on which hops show AS4809, AS4134 and AS23764: none, one or several of each, and whether some AS4809 hop comes strictly before all AS4134 hops |
| Classification.UnicomExactly | bk/route_classification.go:92-124 | every Unicom outcome if and only if a condition of that kind on AS9929, AS4837 and AS10099 |
| Classification.MobileExactly | bk/route_classification.go:126-155 | every Mobile outcome if and only if a condition of that kind on AS58807, AS58453 and AS9808 |
| Classification.TelecomReported | bk/route_classification.go:46-90 | from the evidence to what is reported: code, confidence and rank of every Telecom outcome |
| Classification.UnicomReported | bk/route_classification.go:92-124 | the same for Unicom |
| Classification.MobileReported | bk/route_classification.go:126-155 | the same for Mobile |
| Classification.CarrierNames | bk/route_classification.go:219-231 | the names under which each carrier is known, and unknown_carrier for all others |
| Classification.PositionMeans | bk/route_classification.go:198-217 | the index and the count decide none, one or several |
| Classification.GiaExactly | bk/route_classification.go:46-73 | ct_cn2_gia if and only if two different hops show AS4809, no two show AS4134, and any hop with AS4134 comes strictly after some hop with AS4809 |
| Classification.PremiumExactly | bk/route_classification.go:92-141 | cu_9929 and cm_cmin2 if and only if the premium ASN appears and the ordinary one never strictly before it |
| Classification.RankMeaning | bk/route_classification.go:32-155 | rank 0 exactly for inconclusive results, rank 4 and above only for confirmed ones, never above 5 |
| Classification.CombineRouteClassifications | bk/route_classification.go:159-196 | the loops compute the combination |
| Classification.CombineExactly | bk/route_classification.go:159-196 | what it is: without a conclusive value the first value, or an unknown route when there is none; with conclusive values of one code the first of those of highest rank; with different codes the carrier's dynamic_mixed of rank 3 |
| Classification.HighRankExactly | bk/route_classification.go:159-196 | the combination has rank 4 or more if and only if some conclusive value has and all conclusive values share one code, which is then the result's |
| Classification.CombineOfEqual | bk/route_classification.go:159-196 | values that all agree combine to that value |
| Classification.BestOf | bk/route_classification.go:172-179 | the best of the conclusive values and the set of their codes |
| RouteReport.CollectReports | bk/route_report.go:126-156 | under every schedule, and with the context ending at any turn, also while nothing is buffered: one report for each target in target order, the worker's own exactly when it was taken from the channel, else the cancelled one; cancelled reports only when the context has ended; otherwise all are the workers' own |
| RouteReport.Workers.RoomToSend | bk/route_report.go:131-136 | a worker that has not sent always finds room in the channel: no send ever blocks |
| RouteReport.Workers.NoDeadlock | bk/route_report.go:137-156 | while a result is outstanding, a buffered result or an unfinished worker exists |
| RouteReport.Workers.AllTaken | bk/route_report.go:137-146 | n received results are everyone's, once each |
| RouteReport.DrainWorkers | bk/route_report.go:131-136 | after the collector has left, every remaining worker still sends and ends |
| RouteReport.FillCanceled | bk/route_report.go:147-154 | writes exactly the slots without a received report |
| RouteTarget.ExecuteRouteAttempt | bk/route_report.go:225-251 | the attempt is the first good trace among the primary address and the parsable alternatives different from it, in order, marked as fallback exactly when not the primary; it fails without interruption only if there is no such trace, and is interrupted only by an ended context after the primary and some alternative have failed |
| RouteTarget.CandidatesExactly | bk/route_report.go:233-240 | the addresses tried after the primary one are the alternatives that parse and differ from it |
| RouteTarget.CollectAttempts | bk/route_report.go:177-188 | under every schedule, and with the context ending at any turn: either every attempt is taken once and the successful ones are kept in order of arrival, or the context has ended before all were in |
| RouteTarget.RunRouteTarget | bk/route_report.go:165-214 | the report is a cancelled or timed-out one, each only when the context ended that way, or says that no attempt succeeded, or sums up exactly the successful attempts in some order of arrival with some merge of them: counts, observed systems, combined classification, latency of all their samples |
| RouteTarget.ReportFields | bk/route_report.go:165-214 | of an available report: how many attempts were made and how many succeeded, reached exactly when some successful attempt saw its target, fallback exactly when some successful one used an alternative |
| RouteTarget.FailedReport | bk/route_report.go:183-188 | of any other report: the carrier's unknown class of rank 0, nothing observed or measured, an error exactly unless there was merely no route |
| RouteTarget.EqualAttemptsReport | bk/route_report.go:189-213 | if all successful attempts have equal hops, the report's classification, valid hops and observed systems are those of that one path |
| RouteTarget.HighRankReport | bk/route_report.go:194-211 | a report of rank 4 or more is an available one; every conclusive successful attempt, and the merged path behind the report if conclusive, has the reported code |
| RouteTarget.HighRankAgreement | bk/route_report.go:194-211 | the combination has rank 4 or more if and only if some path or the merged path has and all conclusive ones among them share one code |
| RouteTarget.EqualAttemptsClass | bk/route_report.go:206-211 | equal paths: the merged path is that path and the combination its class |
| RouteTarget.RouteEvidenceFromHops | bk/route_report.go:297-322 | the loops compute the evidence of the hops |
| RouteTarget.EvidenceMembers | bk/route_report.go:297-322 | the evidence has one entry for every hop with a node, at its distance and with its known systems, and no other |
| RouteTarget.EvidenceIncreases | bk/route_report.go:297-322 | for hops at increasing distances, as every trace returns them, the evidence is at strictly increasing distances |
| RouteTarget.EvidenceConcat | bk/route_report.go:297-322 | for any hops: evidence stands in the order of the hops |
| RouteTarget.PathGiaExactly | bk/route_report.go:297-322 | end to end from the path: ct_cn2_gia if and only if two hops have a node that the lookup maps to AS4809, no two have one in AS4134, and before any hop with AS4134 comes one with AS4809 |
| RouteTarget.PathPremiumExactly | bk/route_report.go:297-322 | the same for cu_9929 and cm_cmin2: a node of the premium system, and no hop with the ordinary one strictly before the first of it |
| RouteTarget.HopAsns | bk/route_report.go:303-319 | the known systems of a hop, each once, none missing, none empty |
| RouteTarget.HopAsnsGrow | bk/route_report.go:303-319 | in order of first appearance: more nodes only add systems at the end |
| RouteTarget.UniqueAsns | bk/route_report.go:324-337 | the observed systems: each that some hop shows, once |
| RouteTarget.UniqueAsnsGrow | bk/route_report.go:324-337 | in order of first appearance: more evidence only adds systems at the end |
| RouteTarget.RouteRTTMilliseconds | bk/route_report.go:339-357 | the nested loops compute the samples of the hops |
| RouteTarget.RttsInOrder | bk/route_report.go:339-357 | the RTTs of a node come after those of the hops and nodes before it and before those after it |
| RouteTarget.SampleUnits | bk/route_report.go:339-357 | the samples are the non-negative RTTs, in milliseconds |
| RouteTarget.AttemptSamplesConcat | bk/route_report.go:196-205 | the samples of the attempts stand in their order |
| RouteTarget.SamplesAreReplies | bk/route_report.go:339-357 | for a table that counts every reply once, the RTTs that statistics start from are exactly the replies' RTTs |
| RouteTarget.TraceSamplesAreReplies | bk/route_report.go:339-357 | and the hops a trace returns are such a table: from the replies to the RTTs, none lost or doubled by grouping, sorting and collapsing |
| Latency.CalculateRouteLatency | bk/route_report.go:359-385 | the loops compute the statistics |
| Latency.StatsExactly | bk/route_report.go:359-385 | the count; Min and Max are samples and bound all of them; Avg times the count is the sum; Jitter times the count less one is the sum of the changes between consecutive samples |
| Latency.FieldsOrdered | bk/route_report.go:359-385 | Min <= P50 <= P95 <= Max, Min <= Avg <= Max, 0 <= Jitter <= Max - Min |
| Latency.PercentilesCover | bk/route_report.go:380-399 | each percentile is a sample; at least half of the samples are at or below P50 and fewer than half strictly below, and likewise 19 in 20 for P95 |
| Latency.OrderOnlyMovesJitter | bk/route_report.go:359-385 | every field but Jitter is the same for any rearrangement of the samples |
| Latency.PercentileIndex | bk/route_report.go:387-399 | the index is a valid one for every length and every fraction, clamped at both ends |
| PrefixLookup.Ipv6Asn | bk/ipv6_asn.go:50-83 | for every order in which the table is walked: the answer is that of a matching line of greatest specificity, the smallest name among ties, and "" for text that is no IPv6 address or that nothing matches |
| PrefixLookup.ContainsExactly | bk/ipv6_asn.go:66-69 | a network holds an address if and only if family and zone fit and the address lies in its block: the 2^(width - bits) addresses from the last multiple of that size not above the network's own address |
| PrefixLookup.AnswerUnique | bk/ipv6_asn.go:59-82 | a table and a question have one answer: iteration order cannot show |
| PrefixLookup.EmptyExactly | bk/ipv6_asn.go:57-82 | "" exactly when no line of the table names a network whose block holds the address or is a fragment that begins its text |
| PrefixLookup.LongestPrefixMatch | bk/ipv6_asn.go:65-73 | where no fragment begins the text, so in every table of networks: the answer lists a network that holds the address, is at least as long as every other such network, and lies inside each of them (longest match, section 5.1 of RFC 4632) |
| PrefixLookup.LongerIsInside | bk/ipv6_asn.go:66-69 | of two blocks that hold one address the one with the longer prefix is contained in the other |
| PrefixLookup.TiesShareTheNetwork | bk/ipv6_asn.go:67-68 | two systems tie only by listing the same block of addresses |
| PrefixLookup.CidrDecides | bk/ipv6_asn.go:65-73 | in a table of networks only networks decide, whatever the text |
| PrefixLookup.NetworksIgnoreSpelling | bk/ipv6_asn.go:50-83 | where only networks decide, all spellings of an address get the same answer |
| PrefixLookup.StableTableIgnoresSpelling | bk/ipv6_asn.go:50-83 | for every parser: if each lower-case fragment of the table begins all or none of the spellings of any address, lookups answer all spellings alike |
| PrefixLookup.SpellingExactly | bk/ipv6_asn.go:74-80 | for every parser: the table of one lower-case fragment answers all spellings alike if and only if the fragment begins all or none of the spellings of any address |
| PrefixLookup.FragmentSeesSpelling | bk/ipv6_asn.go:74-80 | the fragment 2001:7f8:43 of AS58453 does not: under every parser that reads 2001:7f8:43::1 and 2001:07f8:43::1 as one address, the first finds AS58453 and the second nothing |
| PrefixLookup.SomeParserSeesSpelling | bk/ipv6_asn.go:74-80 | such parsers exist, also ones that read no other text |
| PrefixLookup.AnswerExists | bk/ipv6_asn.go:57-83 | every table has an answer to every question |
| PrefixLookup.PrefixHexBits | bk/ipv6_asn.go:85-96 | four bits for each lower-case hexadecimal digit |
| PrefixLookup.FragmentBits | bk/ipv6_asn.go:85-96 | a digit counts four bits wherever it stands in the fragment, every other character none |
| PrefixLookup.LineStep | bk/ipv6_asn.go:60-81 | trying one more line keeps the leader ahead of every candidate met |
| PrefixSnapshot.ParseASNPrefixLines | bk/prefix_registry.go:253-281 | the loop fails exactly when there is no line or a bad one, and otherwise returns the sorted distinct lower-case lines |
| PrefixSnapshot.ParseExactly | bk/prefix_registry.go:253-281 | a snapshot is accepted if and only if it has a line that is not blank and every such line, trimmed, is an IPv6 network or consists of hexadecimal digits and colons |
| PrefixSnapshot.ParseCanonical | bk/prefix_registry.go:253-281 | the output is not empty, strictly sorted, lower-case, trimmed, and has exactly the input's values up to case |
| PrefixSnapshot.Reparse | bk/prefix_registry.go:253-281 | reading the joined output, with or without a final newline, gives the output again |
| PrefixSnapshot.ReadBack | bk/prefix_registry.go:253-281 | every strictly sorted list of canonical lines is read back as itself |
| PrefixSnapshot.RawAndParsedAgree | bk/ipv6_asn.go:37-83 | a table of files split into raw lines and the table of their parsed lines answer every lookup alike, given that the files parse and fragments are lower-case |
| PrefixSnapshot.UpperFragmentIsSilent | bk/ipv6_asn.go:74-80 | why fragments must be lower-case: a raw fragment with an upper-case letter never matches |
| PrefixRegistry.FetchASNPrefixSource | bk/prefix_registry.go:119-167 | for every order of arrival: a table for all systems if every one is fetched, described and parsed, otherwise nothing |
| PrefixRegistry.LoadASNPrefixRegistry | bk/prefix_registry.go:61-88 | the first source that delivers everything, else the compiled-in files if their manifests hold, else an error |
| PrefixRegistry.LoadedExactly | bk/prefix_registry.go:61-88 | the first sound source is loaded, whatever unsound ones before it hold: the one with a readable snapshot of every system and, if it checks manifests, for each a manifest that attests it; with no sound source the compiled-in files if their manifests attest them |
| PrefixRegistry.DeliversExactly | bk/prefix_registry.go:119-167 | a source delivers if and only if it is sound, and then for every system the distinct lines of its snapshot, lower-case and in order |
| PrefixRegistry.MismatchRefused | bk/prefix_registry.go:187-216 | a source that checks manifests delivers nothing when one of them names another file, has no valid time, or differs from its snapshot in digest or count |
| PrefixRegistry.LoadedWhole | bk/prefix_registry.go:61-88 | a loaded table is the compiled-in one, or has for every system a non-empty strictly sorted canonical list from one and the same source |
| PrefixRegistry.Active.Refresh | bk/prefix_registry.go:90-97 | the table in use is replaced as a whole on success and untouched on any error |
| PrefixRegistry.SameFilesSameAnswers | bk/prefix_registry.go:50-97 | publishing a source that delivers the compiled-in files changes no lookup answer |
| PrefixUpdate.ExtractIPv6Prefixes | cmd/update-prefixes/main.go:211-228 | for every order of the map: the sorted distinct canonical texts of the usable IPv6 networks of 16 to 128 bits, or an error when there are none |
| PrefixUpdate.ExtractedExactly | cmd/update-prefixes/main.go:211-228 | listed are exactly the printed forms of the records that are IPv6 networks of 16 to 128 bits, once and in order; an error exactly when there are none |
| PrefixUpdate.ExtractedFresh | cmd/update-prefixes/main.go:211-228 | what is extracted is a strictly sorted list of canonical lines |
| PrefixUpdate.Directory.WritePrefixFile | cmd/update-prefixes/main.go:230-270 | the file is replaced by the joined values only if that keeps at least 65 lines for every 100; otherwise nothing changes; it fails exactly when a reading or replacing failed |
| PrefixUpdate.Directory.WritePrefixManifest | cmd/update-prefixes/main.go:130-165 | on success the manifest describes the file (schema, name, line count, digest, valid time); a manifest that already does is kept; it fails exactly when a reading or replacing failed, the file is missing, or it has no line, and then nothing changes |
| PrefixUpdate.Directory.UpdatePrefixes | cmd/update-prefixes/main.go:44-110 | nothing is written unless every system was fetched; with a printer of networks as the standard library's, a run for which all were fetched fails exactly when a reading or replacing failed; whatever fails, each snapshot is as it was or the new one; on success every pair is described and its snapshot is the new one, or the old one if the guard kept it; no other file changes |
| PrefixUpdate.CountNonemptyLines | cmd/update-prefixes/main.go:272-280 | the number of lines that are not blank |
| PrefixUpdate.PrefixValuesFromFile | cmd/update-prefixes/main.go:120-128 | the trimmed lines that are not blank, in order |
| PrefixUpdate.AcceptedExactly | bk/prefix_registry.go:187-216 | a described snapshot is accepted by the reader if and only if it parses and no two lines agree up to case |
| PrefixUpdate.ValidExactly | bk/prefix_registry.go:187-216 | a manifest passes if and only if it decodes, has the schema backtrace.asn-prefixes/v1, this file name and a valid time, its digest equals the snapshot's up to case, the snapshot is readable, and the count is the number of its distinct lines up to case |
| PrefixUpdate.OneManifest | bk/prefix_registry.go:187-216 | one manifest accepts two snapshots only if their digests agree up to case, they have equally many distinct lines, and under one file name |
| PrefixUpdate.ParsedLines | bk/prefix_registry.go:253-281 | what is read from a snapshot: its distinct lines, lower-case and strictly sorted |
| PrefixUpdate.PairAccepted | cmd/update-prefixes/main.go:91-165 | after a run the reader accepts a pair if and only if: when the guard kept the snapshot, its lines are good and distinct up to case; it is kept exactly when the new list has fewer than 65 lines for every 100; a replaced snapshot parses to the fetched list and has at least 65 for every 100 |
| PrefixUpdate.RunLeavesAcceptedPairs | cmd/update-prefixes/main.go:44-110 | for every system of a run, from the responses on: the acceptance condition, the read-back and the 65-line bound |
| PrefixUpdate.RunKeepsClean | cmd/update-prefixes/main.go:44-110 | if every snapshot is clean or absent before a run, every snapshot is clean after it, also when it failed half-way, and after a successful one the reader accepts every pair |
| PrefixUpdate.RunsKeepClean | cmd/update-prefixes/main.go:44-110 | the same over any number of runs, successful or failed |
| PrefixUpdate.KeptPairRejected | cmd/update-prefixes/main.go:93-107 | an accepted pair with a repeated line is kept by the guard, re-described with its line count, and from then on rejected |
| PrefixUpdate.KnownNamesSeparate | cmd/update-prefixes/main.go:23 | the nine systems have nine different file names |
| PrefixUpdate.FileNames | cmd/update-prefixes/main.go:92 | the snapshot of AS4809 is as4809.txt, its manifest as4809.txt.manifest.json |
| PrefixList.GeneratePrefixListWithLimit | back/generate.go:34-70 | the loop in 32-bit words, every product and sum reduced, computes the labels of consecutive /24 blocks; the error cases are invalid, IPv6 and too large, in that order; a limit of 0 or less means 65536 |
| PrefixList.GeneratePrefixList | back/generate.go:21-27 | the default limit, and nothing on any error |
| PrefixList.ExactCover | back/generate.go:50-69 | with a mask of at most 24 bits, an address is in the network if and only if its top 24 bits are listed |
| PrefixList.ListedAddress | back/generate.go:50-80 | in terms of bytes: the first three bytes of an address, printed with dots, are listed if and only if the address agrees with the network above the mask |
| PrefixList.OutcomesExactly | back/generate.go:34-60 | which inputs fail and how: no network or neither family is invalid, IPv6 is unsupported, and 2^(24 - mask) blocks above the limit, 65536 unless a positive one is given, are too many |
| PrefixList.ContainingBlock | back/generate.go:50-69 | with a longer mask the list is the one block that contains every address of the network |
| PrefixList.CountsUp | back/generate.go:53-69 | 2^(24 - mask) entries or one, at most the limit, labelling strictly increasing blocks below 2^24, without repeats |
| PrefixList.NoWrap | back/generate.go:61-67 | no product or sum of the loop leaves 32 bits |
| PrefixList.BlocksFit | back/generate.go:50-67 | first block plus count never passes the last /24 |
| PrefixList.DefaultRefuses | back/generate.go:57-59 | with the default limit exactly the masks shorter than 8 bits are too large |
| PrefixList.LabelInjective | back/generate.go:67 | different blocks print differently |
| PrefixList.BytesOfWord | back/generate.go:73-80 | bytes to word and back gives the bytes |
| PrefixList.WordOfBytes | back/generate.go:73-80 | word to bytes and back gives the word |
| Relationships.DedupeRelationships | bgptools/relationships.go:388-410 | for every order of the map: strictly ordered by kind, ASN and exchange id, holding for every key its representative and nothing else |
| Relationships.OutputOrder | bgptools/relationships.go:400-409 | the output goes by kind, within a kind by the text of the number, within a number by the exchange id |
| Relationships.ChosenRepresents | bgptools/relationships.go:389-395 | the entry kept for a key is the first with a name, or else the first |
| Relationships.RepresentativeUnique | bgptools/relationships.go:389-395 | a key has one such entry |
| Relationships.OutputUnique | bgptools/relationships.go:396-409 | the output is one and the same for every order in which the map is walked |
| Relationships.OutputRepresents | bgptools/relationships.go:388-410 | every input key has exactly one entry in the output, its representative |
| Relationships.Idempotent | bgptools/relationships.go:388-410 | deduplicating the output gives the output, colons or not |
| Relationships.KeyInjective | bgptools/relationships.go:391 | for colon-free kind and ASN two keys are equal if and only if kind, ASN and exchange id are |
| Relationships.TriplesKeptExactly | bgptools/relationships.go:388-410 | every kind, ASN and exchange id of the input is in the output if and only if inputs with one joined key agree in all three; and the output never has two entries for one triple |
| Relationships.ColonFreeKeepsAll | bgptools/relationships.go:388-410 | colon-free kinds and ASNs, which is what the callers pass, are enough |
| Relationships.ColonMerges | bgptools/relationships.go:391 | with a colon in the ASN the output can lose one of two different relationships |
| Relationships.Report.SortRelationships | bgptools/relationships.go:482-489 | each list of the report is replaced by its deduplication, and the source statuses by a rearrangement in order of their sources |
| AsnMetadata.NormalizeIdempotent | bgptools/relationships.go:187-197 | the normal form consists of digits, normalises to itself and denotes the same number |
| AsnMetadata.Number | bgptools/relationships.go:187-197 | the number is between 1 and 2^32 - 1 |
| AsnMetadata.SameNormalForm | bgptools/relationships.go:187-197 | two texts have one normal form if and only if they denote the same number |
| AsnMetadata.SpellingsAgree | bgptools/relationships.go:187-197 | blanks around, AS in any case, or no AS: every such spelling of a number normalises to its decimal digits (asplain, section 2 of RFC 5396) |
| AsnMetadata.NumberExactly | bgptools/relationships.go:187-197 | a text denotes a number if and only if it spells one from 1 to 2^32 - 1: blanks around, AS in any case or nothing, then decimal digits, leading zeros allowed |
| AsnMetadata.ParseASNMetadataDocument | bgptools/asn_metadata.go:197-229 | accepts exactly the documents with the right schema and time, usable entries, no repeated number and enough entries, and returns them sorted with names trimmed |
| AsnMetadata.SortIncreasing | bgptools/asn_metadata.go:227 | accepted entries come out in strictly increasing order, with none lost or added |
| AsnMetadata.SearchASN | bgptools/asn_metadata.go:94-98 | binary search returns what a linear scan of the list returns |
| AsnMetadata.AcceptedLookup | bgptools/asn_metadata.go:94-98 | and that is what a scan of the document as written finds |
| AsnMetadata.LoadASNMetadata | bgptools/asn_metadata.go:101-131 | the first acceptable remote document, else the compiled-in one, which must itself be acceptable |
| AsnMetadata.ChosenAcceptable | bgptools/asn_metadata.go:115-130 | whichever document is chosen is acceptable, and a remote one has no fewer than 65 in 100 of the compiled-in entries, rounded down |
| AsnMetadata.ChosenExactly | bgptools/asn_metadata.go:101-131 | the chosen document is that of the first remote source that is acceptable, described by its manifest, and has no fewer than 65 in 100 of the compiled-in entries, rounded down; else the compiled-in one |
| AsnMetadata.LookupASNMetadata | bgptools/asn_metadata.go:84-99 | end to end: for every text, the entry that a linear scan of the chosen document finds for the number the text denotes |
| Text.TrimExactly | bk/prefix_registry.go:257-257 | trimming takes white space off both ends; what is left neither begins nor ends with it |
| Text.AsciiSpace | bk/prefix_registry.go:257-257 | white space among ASCII characters: tab, line feed, vertical tab, form feed, carriage return and blank |
| Text.LessExactly | bk/ipv6_asn.go:66-69 | byte order: the texts agree up to some place where the first ends or has the smaller character |
| Text.LetterCase | bk/prefix_registry.go:149-149 | case conversion keeps a letter's place in the alphabet and leaves other ASCII characters alone |
| Text.FoldExactly | bk/prefix_registry.go:204-207 | equality up to case of ASCII texts is equality of their lower-case forms |
| Decimal.DecimalExample | back/generate.go:67-67 | decimal text has the most significant digit first |

## Left out

- Upstreams.FindUpstreams: does not say what happens when a walk of several direct upstreams does not halt, because the source then loops for ever; HaltsExactly says when that is.
- Demultiplexing.OneProbePerAnswer: does not hold for a window over the pending probes alone when several sessions share a destination, because of the run in PendingWindowNotEnough; the window here also counts probes an unfinished answer has taken, and OneProbeExactly is the exact condition.
- Tracing.Session.Handle: is one undivided call; the interleavings of its two halves with other steps are in Interleaving and TraceLoop, through BeginHandle and SendReply.
- Hops.HopTable.CollapseTail: does not model sharing of hop and node pointers between tables; hops are values, so an append through a shared node is an update in place.
- Merging.MergeHops: does not model nil hop entries, on which the source would panic at `hop.Nodes`.
- RouteTarget.RunRouteTarget: does not carry the target and protocol fields, which are copied through.
- RouteTarget.RouteEvidenceFromHops: takes the lookup of an address as a function, because bk/ipv4_asn.go is a finite table of text prefixes.
- Latency.CalculateRouteLatency: does not model floating-point rounding; 0.50 and 0.95 are the fractions 1/2 and 19/20 with exact ceilings.
- PrefixList.BinaryIPToInt: does not use bit operators; shifts, masks and disjoint ors are division, remainder and sum, with the 32-bit reduction written out.
- PrefixLookup.Ipv6Asn: does not map letters outside ASCII to lower case; upper case and case folding include the letters outside ASCII that map into it.
- PrefixUpdate.Directory.Replace: does not model the temporary file and its removal, or a directory that cannot be made, except as a replacement that fails and changes nothing.
- PrefixUpdate.Directory.UpdatePrefixes: does not say that pairs match after a failed run, because a snapshot may then be newer than its manifest.
- PrefixRegistry.FetchASNPrefixSource: does not model the URL check and the size limit of a fetch, except as a file that is not delivered.
- AsnMetadata.LoadASNMetadata: takes decoding and the manifest comparison as given (`document`, `described`), because they are field by field.
- Sockets, raw packets, ICMP marshalling and IPv6 control messages: the model starts from the decoded source, destination, id, TTL and time.
- HTTP, WHOIS, DNS, CDN choice and the refresh of alternative targets: answers of the network are parameters.
- Wall-clock time: timestamps of probes and answers are arbitrary integers, timers fire at any turn.
- JSON, regular expressions, SHA-256 and the SVG page of upstreams: function parameters or decoded values.
- Default targets, the carrier a target name stands for, findTargetASN and the removeDuplicates helper.
- Command-line programs, rendering, the legacy printing traces, report status folds, RDAP and WHOIS bootstrap: user interface or small folds inside I/O.
