# A verified model of bpf-dns-gateway

bpf-dns-gateway sits on the veths of a Kubernetes node and steers DNS queries. An ingress
program walks the name of each query to CoreDNS, looks its suffixes up in a rule map, and
rewrites the destination of the chosen ones to the VPC resolver; an egress program rewrites
the resolver's answers back so that the pod sees CoreDNS. A Go control plane installs the
rules, probes the resolver, flips a bypass flag and attaches the programs.

This project models that behaviour in Dafny and proves what it is meant to guarantee, for
every input and every interleaving. `dafny verify dfyconfig.toml` checks all of it.

| file | models |
|---|---|
| WireFormat.dfy | label lists, their wire form and zero-padded keys (section 3.1 of RFC 1035) |
| SuffixCodec.dfy, DomainText.dfy | `EncodeSuffix`, `DecodeSuffix`, `ParsePattern`, and what they do to letters and dots |
| KernelMaps.dfy, RuleTable.dfy | the bounded `suffix_rules` map and `PopulateSuffixRules` |
| NameMatcher.dfy | label walk, padded lookups, scratch buffers, and the rule over label lists |
| Checksum.dfy, NatRewrite.dfy | equation 3 in section 3 of RFC 1624, `nat_rewrite_addr` and its undo |
| Datapath.dfy | `dns_gateway_ingress` and `dns_gateway_egress`, as functions and as in-place methods |
| ConntrackLog.dfy, Runs.dfy | whole runs of both programs: justified SNATs, delivery, draining |
| Packets.dfy, RuleRuns.dfy | made-to-order packets, ingress under installed rules, round trips |
| RawPackets.dfy | both programs over packets given byte by byte, and whole runs of them |
| CounterRuns.dfy, Verdicts.dfy | the metric counters over runs |
| ConfigCheck.dfy, ConfigRuns.dfy | config validation, when a config can act at all, and from config text to packet |
| Health.dfy, Shutdown.dfy | the probe state machine, and its interleaving with shutdown |
| VethMonitor.dfy, AttachManager.dfy | veth events in lock order, the event channel, TCX link handles |

Conventions. Each packet program run is one atomic step; goroutines are interleaved steps,
with `SetBypass` split into lock, read and write. Helper failures are parameters
(`Faults`, `NatFaults`, `MapFaults`), so a theorem about all of them covers every pattern; a failing helper has
no effect. Time, probe results and iteration order are arbitrary. Addresses and ports keep
their wire bytes, so byte order does not appear. Code that updates state in place is a
class or an array method proved equal to a function, and the theorems are about that
function. Domain text is ASCII.

Where the code does not do what its prose says, the model follows the code:

- A `*.suffix` rule also matches `suffix` itself (`NameMatcher.Suits` is non-strict).
- docs/design.md line 572 says longer names pass to CoreDNS. A name of more than ten labels
  takes the default action, and could even hit a rule that ends in an all-NUL label
  (`NameMatcher.CutNameMatchesOnlyNul`).
- Mixed-case names do not simply "miss the suffix rules": capitals hide the labels up to them
  (`NameMatcher.CapitalHidesPrefix`), so WWW.s3.amazonaws.com still hits *.s3.amazonaws.com, and
  a name with a capital in its last label takes the default action, which need not be CoreDNS.
- "Byte-identical" after an undo fails exactly when the undo went through an IP checksum of
  0xFFFF, which comes back as 0x0000 (`NatRewrite.AllOrNothing`).
- The validator's "at least one rule differs" accepts configs that can never act
  (`ConfigCheck.AcceptedNoOp`); `ConfigCheck.NoOpExactly` gives the exact condition.
- The result of deleting a conntrack entry is ignored. If the deletion after a SNAT fails, one
  redirect can get two answers (`RuleRuns.OneRedirectTwoAnswers`); if a rewrite fails and the
  deletion of its entry fails too, an answer can come without any redirect
  (`RuleRuns.AnswerWithoutRedirect`). `Runs.EverySnatHasOrigin` says what holds regardless.
  `Runs.OwnJustifiedIff` gives the exact condition for "every SNAT used the entry of a successful
  redirect, and no two used the same": no leaked entry is used again before a new one takes its
  place. It speaks of the entry each SNAT used. An injective map to some redirects can survive a
  leak, since an earlier redirect of the same connection that was never answered can stand in.
- Shutdown does not order bypass before detach: the controller reacts to the same cancellation as
  main, and to the end of the monitor even before it. After the five-second timeout a pending probe
  can still clear the flag. `Shutdown.DetachUnbypassedIff` and `Shutdown.BypassLostIff` give the
  exact conditions, `Shutdown.TimeoutCanLoseBypass` and `Shutdown.DetachCanPrecedeCancellation` runs.
- Veth events can overtake one another: both goroutines of the monitor send after releasing its
  lock. A Remove can be sent before the resync's Add that it ends, and a Remove after a resync's
  Add that came later (`VethMonitor.GoneButTracked`, `VethMonitor.LiveButUntracked`).
  `VethMonitor.PipeRun.DrainedIsLive` gives the exact condition.
- A trailing dot makes no difference to a key, but a second one does: `a.` is accepted and `a..`
  refused (`DomainText.TrailingDot`, `DomainText.TwoDotsRefused`).
- Comments in internal/dnsenc/wire.go speak of 256-byte keys; the constant is 128.

One result belongs to the checksum model and not to the program: with equation 3 of RFC 1624 in
16-bit words, A→B→C equals A→C except for an IP checksum of 0xFFFF, A = 255.255.255.255 and
C = 0.0.0.0 (`Checksum.UpdateCompose`). A helper that folds a wider complement never produces
0xFFFF and would not have that exception.

## Model

| member | source | states |
|---|---|---|
| WireFormat.ReadLabelsIff | internal/dnsenc/wire.go:49-74 | a byte string holds at most one terminated label list at a position, and reading finds exactly that one: the wire form is prefix-free |
| WireFormat.KeyInjective | internal/dnsenc/wire.go:25-44 | padding to 128 bytes never makes two label lists collide |
| WireFormat.CutKeyMatches | bpf/dns_gateway.c:294-312 | the key of a cut, unterminated name equals a rule's key if and only if the rule continues the cut labels with one all-NUL label of the next length |
| SuffixCodec.EncodeSuffix | internal/dnsenc/wire.go:15-45 | the filling loop accepts a domain if and only if, one trailing dot stripped, it has at most 126 characters and only labels of 1..63 bytes, and then gives the padded key of its lowercased labels |
| SuffixCodec.DecodeSuffix | internal/dnsenc/wire.go:49-74 | the decoding loop computes `Decoded`, errors included |
| SuffixCodec.DecodedMeaning | internal/dnsenc/wire.go:49-74 | decoding succeeds with a text exactly when the key holds a non-empty terminated name whose labels join to it |
| SuffixCodec.DecodeAfterEncode | internal/dnsenc/wire.go:15-74 | decode after encode is the lowercased domain without its trailing dot |
| SuffixCodec.EncodeInjective | internal/dnsenc/wire.go:15-45 | two accepted domains share a key if and only if they agree up to case and one trailing dot |
| SuffixCodec.EncodeAfterDecode | internal/dnsenc/wire.go:15-74 | encode after decode is the identity if and only if no label has a dot or a capital and the padding is zero |
| DomainText.LowerMeaning | internal/dnsenc/wire.go:19 | lowering keeps the length, takes each of A..Z to the same letter of a..z and leaves every other byte |
| DomainText.SharedKeyIff | internal/dnsenc/wire.go:15-45 | two accepted domains without trailing dot share a key if and only if they are equally long and agree at each position up to the 26 letter pairs |
| DomainText.TrailingDot | internal/dnsenc/wire.go:18 | one more dot at the end changes nothing, unless there was one already: then the domain is refused |
| DomainText.TwoDotsRefused | internal/dnsenc/wire.go:18-30 | `a.` is accepted and `a..` is not |
| DomainText.EncodedIffSpells | internal/dnsenc/wire.go:15-45 | a domain gets the key of a label list if and only if its text spells those labels, in any case, with a '.' between them |
| KernelMaps.KernelMap.DeleteStale | internal/ebpf/maps.go:167-178 | deletes only unwanted keys, never changes a value or raises the size, and fails exactly when the deletion of a stale key does |
| KernelMaps.KernelMap.AddWanted | internal/ebpf/maps.go:179-188 | writes exactly the missing or different entries; stops only for a fault on one of them, or for lack of space when the wanted map exceeds the capacity; never more entries than the wanted map |
| RuleTable.BuildDesired | internal/ebpf/maps.go:127-153 | accepts exactly the rule lists whose rules are all valid and never give one key two actions |
| RuleTable.DesiredMeaning | internal/ebpf/maps.go:127-153 | in the wanted map every rule keeps its own action and there is no other key |
| RuleTable.OrderIndependent | internal/ebpf/maps.go:127-153 | the wanted map does not depend on the order or repetition of rules |
| RuleTable.PopulateSuffixRules | internal/ebpf/maps.go:120-190 | succeeds if and only if the rules are installable, fit, and no operation it needs fails, and then reaches exactly the wanted map; a rejected list leaves the map untouched; the map never exceeds the larger of old and new size; under any failure each key has its old or its wanted action and no kept rule is lost |
| NameMatcher.WalkHolds | bpf/dns_gateway.c:211-244 | a walk that ends inside the window passed over valid labels held there and stopped at a terminator or at the label budget |
| NameMatcher.WalkOf | bpf/dns_gateway.c:211-244 | conversely, such labels are walked with exactly their offsets |
| NameMatcher.FirstMatchIsLongest | bpf/dns_gateway.c:257-318 | lookups by offset over the window equal longest-suffix-first lookups over labels |
| NameMatcher.ResolvedIff | bpf/dns_gateway.c:211-244 | a question gets an action if and only if it starts with one to ten valid labels that end in a terminator or fill the budget, inside the window |
| NameMatcher.BadNameIff | bpf/dns_gateway.c:224-232 | a name counts as a parse error if and only if fewer than ten valid labels are followed by a length above 63 |
| NameMatcher.MatchRefinesSpec | bpf/dns_gateway.c:195-318 | for every installed rule list and every name of 1..10 labels in the window, the padded lookups resolve to an action if and only if it is that of the rule with the most labels that is a suffix of the name, else the default |
| NameMatcher.DecidesUnique | internal/ebpf/maps.go:149-152 | at most one answer meets that rule, since conflicting rules are refused |
| NameMatcher.CapitalHidesPrefix | bpf/dns_gateway.c:246-265 | a name with a capital in some label is decided exactly as the rest of the name after that label is |
| NameMatcher.MixedCaseTakesDefault | bpf/dns_gateway.c:246-265 | so a name with a capital in its last label takes the default action |
| NameMatcher.MixedCaseStillMatches | bpf/dns_gateway.c:246-265 | and every rule of at most nine labels still matches a name that puts a capitalised label before it |
| NameMatcher.CutNameMatchesOnlyNul | bpf/dns_gateway.c:216-244 | a name of more than ten labels hits a rule if and only if a rule ends in the matching all-NUL label; then the one with the most labels decides, and otherwise the default |
| NameMatcher.CutNameTakesDefault | bpf/dns_gateway.c:216-318 | without all-NUL rule labels a name of more than ten labels always takes the default |
| NameMatcher.UnreachableRulesAreInert | bpf/dns_gateway.c:216-318 | whatever the question bytes, the answer is the same without the unreachable rules: those of more than ten labels, other than eleven of which the last is all-NUL |
| NameMatcher.OwnNameReaches | bpf/dns_gateway.c:257-318 | and every other rule is reached, by the question holding its own key |
| NameMatcher.Scratch.WalkLabels | bpf/dns_gateway.c:211-237 | the walking loop computes the walk of the loaded bytes only |
| NameMatcher.Scratch.CopySuffix | bpf/dns_gateway.c:280-308 | the masked copy overwrites the whole lookup buffer with one padded suffix |
| NameMatcher.Scratch.MatchSuffixes | bpf/dns_gateway.c:265-318 | the lookup loop gives the first hit, independent of old buffer contents |
| Checksum.UpdateConserves | bpf/dns_gateway.c:83-88 | the incremental update preserves checksum plus field mod 0xFFFF |
| Checksum.UpdateUdpConserves | bpf/dns_gateway.c:90-92 | a UDP checksum is zero afterwards if and only if it was before, and otherwise preserves the total mod 0xFFFF |
| Checksum.UpdateInverse | bpf/dns_gateway.c:93-95 | there and back is the identity except that 0xFFFF becomes 0 |
| Checksum.UpdateCompose | bpf/dns_gateway.c:83-88 | two updates equal one if and only if not (0xFFFF, all-ones to zero) |
| Checksum.UpdateUdpCompose | bpf/dns_gateway.c:90-92 | UDP updates compose without exception |
| Checksum.UpdateUdpInverse | bpf/dns_gateway.c:90-92 | UDP updates invert without exception |
| NatRewrite.NatRewriteAddr | bpf/dns_gateway.c:75-102 | the in-place three-step rewrite with undo yields the bytes and return code of `Try` under every pattern of helper failures |
| NatRewrite.AllOrNothing | bpf/dns_gateway.c:57-102 | 0 is fully rewritten; -1 is byte-identical if and only if the undo did not pass an IP checksum of 0xFFFF; only -2 may be mixed; no failure touches anything but the address and the IP checksum |
| NatRewrite.BrokenUndo | bpf/dns_gateway.c:83-99 | after -2 the packet lacks exactly the undo steps that failed: which address, which IP checksum, and the UDP checksum as it came |
| NatRewrite.RewritesCompose | bpf/dns_gateway.c:75-102 | A→B then B→C is the packet A→C, with the one exception stated exactly |
| NatRewrite.RewritesInvert | bpf/dns_gateway.c:75-102 | A→B then B→A restores every byte if and only if the IP checksum was not 0xFFFF |
| NatRewrite.RewriteKeepsChecksums | bpf/dns_gateway.c:354-355 | for every header length and address pair: IP and UDP validity are preserved, an absent UDP checksum stays absent and a present one present, and only the address and checksum bytes change |
| Datapath.Gateway.ResolveQuestion | bpf/dns_gateway.c:193-318 | load, walk and match in the scratch buffers depend on the question, the rules and the default only |
| Datapath.Gateway.Ingress | bpf/dns_gateway.c:114-367 | packet bytes, conntrack and counters after ingress are a function of packet, maps, clock and failures; old scratch contents do not matter |
| Datapath.Gateway.Egress | bpf/dns_gateway.c:371-467 | the same for egress |
| ConntrackLog.Log.EntriesAccounted | bpf/dns_gateway.c:332-366 | whatever fails, every live entry was left by the last redirect attempt of its connection that left one, with that time and queried address, and a later SNAT used it only if its deletion failed |
| ConntrackLog.Log.SnatHasOrigin | bpf/dns_gateway.c:427-466 | whatever fails, a SNAT goes back to an earlier redirect attempt with the same pod address, port and txid, at most 5 s old, and shows the address that was queried; the attempt succeeded or leaked its entry |
| ConntrackLog.Log.SharedOriginLeaks | bpf/dns_gateway.c:462-465 | two SNATs go back to the same attempt only if the earlier one's deletion failed |
| ConntrackLog.Log.OwnJustifiedIff | bpf/dns_gateway.c:356-466 | every SNAT goes back to a successful redirect of its own if and only if no entry left behind by a failed deletion is used again before a new one takes its place |
| Runs.StepMoves | bpf/dns_gateway.c:114-467 | every step changes the conntrack table exactly as its event, and the success of its deletion, announce |
| Runs.RunHasNoFuture | bpf/dns_gateway.c:340-447 | in every run no entry is stamped in the future, so the unsigned age never wraps |
| Runs.EverySnatHasOrigin | bpf/dns_gateway.c:332-466 | in every run from an empty table, under every failure, each SNAT answers an earlier redirect attempt of the same connection, at most 5 s old, to the address it shows; the attempt succeeded or leaked its entry, and two SNATs share one only if the first leaked |
| Runs.EverySnatIsJustified | bpf/dns_gateway.c:332-466 | so in every run without such a leak the map from each SNAT to the redirect whose entry it used is injective, and that redirect succeeded, for the same connection, at most 5 s before, to the address shown |
| Runs.OwnJustifiedIff | bpf/dns_gateway.c:332-466 | in every run from an empty table, under every failure, the entry behind each SNAT is that of a successful redirect and no two SNATs used the same one, if and only if no leaked entry is used again |
| Runs.LeakBreaksJustification | bpf/dns_gateway.c:356-359 | any run whose last step leaked an entry extends by one response, with nothing failing, to a run that violates this |
| Runs.BypassTableShrinks | bpf/dns_gateway.c:124-127 | while bypass is set the table never gains or changes an entry |
| Runs.BypassDrains | bpf/dns_gateway.c:438-447 | more than 5 s after bypass was set for good, neither program changes a byte of any packet |
| Runs.ResponseIsDelivered | bpf/dns_gateway.c:381-466 | after a redirect, a matching response within 5 s is rewritten to come from the queried address, across any steps but an eviction, another redirect attempt or a SNAT of that connection; bypass flips, rule updates and earlier failed rewrites of the same response included |
| RuleRuns.IngressFollowsRules | bpf/dns_gateway.c:257-366 | with rules installed and nothing failing, a query is redirected exactly when the documented rule says host-resolve and otherwise passes unchanged, with exactly the matching counters |
| RuleRuns.OnlyHostNamesLeave | bpf/dns_gateway.c:122-366 | with rules installed, whatever fails, ingress changes a query of 1..10 labels, or the table for it, only if bypass is off and the documented rule says host-resolve |
| RuleRuns.FailedRedirectLeavesNoTrace | bpf/dns_gateway.c:349-360 | after a redirect that failed and was undone, the packet is byte-identical if and only if the undo did not pass an IP checksum of 0xFFFF, and its connection's entry is gone and the table otherwise unchanged if and only if the deletion worked |
| RuleRuns.RedirectKeepsChecksums | bpf/dns_gateway.c:349-366 | a redirected query names the VPC resolver, and its IP and UDP checksums are exactly as valid as they were, wherever the datagram ends; nothing else in it changes |
| RuleRuns.SnatKeepsChecksums | bpf/dns_gateway.c:449-466 | the same for a rewritten response, which names the address that was queried |
| RuleRuns.QueryThenAnswer | bpf/dns_gateway.c:332-466 | from an empty table, any query that resolves to host-resolve, followed by its answer, is a run that redirects the one and shows the other as coming from the queried address |
| RuleRuns.OneRedirectTwoAnswers | bpf/dns_gateway.c:462-465 | from any such query in an empty table, a run with one redirect and two SNATs when only the SNAT's deletion fails |
| RuleRuns.AnswerWithoutRedirect | bpf/dns_gateway.c:356-359 | and a run with a SNAT and no redirect when the rewrite and the deletion that undoes its entry both fail |
| RuleRuns.SampleQuery | bpf/dns_gateway.c:114-330 | such a query exists, so the hypotheses of the run theorems can be met |
| RawPackets.OnlyQueriesTouched | bpf/dns_gateway.c:115-347 | whatever fails, if ingress touches packet or table then the bytes are those of an unfragmented IPv4 UDP query to CoreDNS's address and port with one question, bypass is off and config, scratch and insert worked |
| RawPackets.QueryIsDecided | bpf/dns_gateway.c:129-366 | a query given by its bytes, with any header length, options, reserved or don't-fragment bit and a name of 1..10 labels, is redirected if and only if the documented rule says host-resolve, bypass is off and no helper fails; a failing rewrite shows as such, and otherwise packet and table stay |
| RawPackets.ZeroDefaultKeeps | bpf/dns_gateway.c:262-266 | a default action of 0 keeps unmatched names on CoreDNS |
| RawPackets.RedirectBytes | bpf/dns_gateway.c:332-366 | a redirected query has the VPC resolver's four bytes as its destination, and the table an entry under its source address, source port and txid with CoreDNS's address and the time |
| RawPackets.OnlyAnswersTouched | bpf/dns_gateway.c:372-436 | whatever fails, if egress touches packet or table then the bytes are those of an unfragmented UDP packet from the VPC resolver's address and DNS port, and its destination address, port and txid have an entry |
| RawPackets.AnswerIsDecided | bpf/dns_gateway.c:384-466 | such a packet is rewritten if and only if its entry is at most 5 s old and no helper fails, and then shows the address in the entry; the entry goes if and only if it was used or too old and its deletion works |
| RawPackets.FragmentsPass | bpf/dns_gateway.c:146-150 | a packet with more fragments to come or a fragment offset passes both programs untouched |
| RawPackets.EveryAnswerHasQuery | bpf/dns_gateway.c:129-466 | in every run from an empty table, under every failure, a rewritten answer came from the VPC resolver to an address, port and txid from which a query was sent to the service at most 5 s before, and its source becomes the address that query was sent to |
| CounterRuns.StepCountsEvent | bpf/dns_gateway.c:104-110 | the redirect, SNAT, NAT error and revert failure counters move exactly with their events |
| CounterRuns.CountersBalance | bpf/dns_gateway.c:115-467 | in every reachable state, under every failure, the counters account for one another: queries, matches, actions, SNATs, misses and NAT errors |
| CounterRuns.EntriesConserved | bpf/dns_gateway.c:332-466 | over every run, under every failure, SNATs, live entries and lost entries (overwritten, evicted, stale, or taken out by a failed redirect) grow together exactly as redirects and leaked entries |
| CounterRuns.CoveredIff | bpf/dns_gateway.c:332-466 | so from fresh maps SNATs plus live entries stay within the redirects if and only if no more entries leaked than were lost |
| Verdicts.IngressFollows | bpf/dns_gateway.c:115-367 | each packet has one of thirteen verdicts, read off its bytes, the rules and the failures, and ingress moves every counter and chooses its event by that verdict |
| Verdicts.EgressFollows | bpf/dns_gateway.c:372-467 | the same for egress and its six verdicts |
| Verdicts.CountersAreVerdicts | bpf/dns_gateway.c:104-467 | over every run each of the thirteen counters has grown by exactly the number of packets with the verdicts it counts |
| ConfigCheck.ValidateRule | internal/config/config.go:212-242 | a rule passes exactly when it is a wildcard with valid labels, no interior star and a known action |
| ConfigCheck.ValidateRules | internal/config/config.go:142-166 | the rule loop accepts exactly valid rules under a valid default with at least one differing |
| ConfigCheck.NoOpExactly | internal/config/config.go:158-166 | some question resolves to an action other than the default if and only if a reachable rule differs from it |
| ConfigCheck.AcceptedNoOp | internal/config/config.go:149-166 | for every label count from 11 to 63 there is an accepted, installable config that can never act |
| ConfigRuns.ValidRuleIff | internal/config/config.go:212-246 | the validator accepts a rule if and only if its pattern is `*.` and then labels of 1..63 bytes with dots between them, with no other star, and its action is `host-resolve` or `cluster-resolve` |
| ConfigRuns.AcceptedIff | internal/ebpf/maps.go:129-148 | the loader accepts a rule if and only if its pattern is of that form, perhaps with one more dot, its labels take at most 127 bytes on the wire, and its action is 1 or 2 |
| ConfigRuns.HostDecidedIffSays | cmd/bpf-dns-gateway/main.go:75-86 | for an accepted config, the translated and installed rules decide host-resolve if and only if the rule text that covers most of the name says `host-resolve`, or none covers any and the default text does |
| ConfigRuns.ConfigReachesPacket | cmd/bpf-dns-gateway/main.go:208-217 | from config text to packet bytes: under an accepted, installed config a query for a name of 1..10 labels leaves for the VPC resolver if and only if the text says so, bypass is off and no helper fails; a name it keeps stays untouched |
| Health.ConfigStore.SetBypass | internal/ebpf/maps.go:95-112 | changes the flag only, or nothing when it fails |
| Health.Checker.ProbeOnce | internal/health/checker.go:145-193 | one probe moves counter, cache and map flag as `React` says, and leaves every other config field alone |
| Health.History.CacheAgrees | internal/health/checker.go:145-193 | over all probe sequences the cached flag equals the flag in the map and the failure counter is the trailing run of failures |
| Health.History.MetricCountsFailures | internal/health/checker.go:157-159 | the probe failure metric is the number of failed probes that were not canceled |
| Health.History.CallIff | internal/health/checker.go:145-193 | a probe calls `SetBypass` if and only if it was not canceled and the flag has to change: to clear it on an answer, to set it once the failures reach the threshold |
| Health.History.FlagIffThreshold | internal/health/checker.go:145-193 | if all writes succeed the flag is on if and only if the trailing failures reach the threshold |
| Health.History.DisagreementExplained | internal/health/checker.go:166-192 | otherwise any disagreement is due to a failed write: the last live probe's own attempt to set, or the attempt to clear at the last success |
| Health.History.CallsAlternate | internal/health/checker.go:166-192 | successful writes strictly alternate |
| Health.History.FirstCallIsOn | internal/health/checker.go:166-192 | and the first one sets the flag |
| Shutdown.RunKeepsInv | internal/ebpf/maps.go:90-112 | in every interleaving at most one goroutine holds the lock, a holder's copy is current, calls are for the opposite of the cached flag, main acts only after cancellation, the controller detaches only after that or after the monitor's end, and only the flag ever changes |
| Shutdown.ShutdownKeepsBypass | cmd/bpf-dns-gateway/main.go:162-180 | once main proceeded on Done and its write succeeded, the flag is 1 in all later states and the other fields are as at startup |
| Shutdown.OnlyEarlyProbeClears | internal/health/checker.go:148-155 | after cancellation the flag can be cleared only by a call that had passed the context check before |
| Shutdown.SetFlagStays | cmd/bpf-dns-gateway/main.go:167-180 | once the context is canceled, a set flag with no clearing call pending is set in every state that can follow |
| Shutdown.PendingCallClears | internal/health/checker.go:181-187 | a pending clearing call, however far it has got, can complete and clear the flag |
| Shutdown.BypassLostIff | cmd/bpf-dns-gateway/main.go:162-180 | some continuation comes to a state without bypass if and only if the context is not canceled, the flag is off already, or a clearing call is pending |
| Shutdown.DetachUnbypassedIff | internal/controller/controller.go:68-95 | while attached, some continuation detaches without bypass under exactly the same condition, the monitor's failure before cancellation included |
| Shutdown.CacheAgreesUntilMainWrites | internal/health/checker.go:166-188 | in every run the checker's cache agrees with the map until main writes, except between a write and its recording |
| Shutdown.TimeoutCanLoseBypass | cmd/bpf-dns-gateway/main.go:170-180 | for every threshold, a run from startup in which the wait times out, main sets the flag successfully, and a recovery probe then clears it |
| Shutdown.DetachCanPrecedeBypass | internal/controller/controller.go:73-75 | a run from startup in which the controller detaches after a cancellation while the flag is off |
| Shutdown.DetachCanPrecedeCancellation | internal/controller/controller.go:76-91 | a run from startup in which it detaches, with the flag off, before the context is canceled |
| VethMonitor.Monitor.HandleUpdate | internal/netlinkmon/monitor.go:208-246 | the locked part of `handle` |
| VethMonitor.Monitor.ResyncLink | internal/netlinkmon/monitor.go:165-172 | the locked part of the resync goroutine |
| VethMonitor.Log.KnownIsLive | internal/netlinkmon/monitor.go:165-246 | in lock order an interface is known if and only if a veth NEWLINK or a resync listing of it came after its last DELLINK |
| VethMonitor.Log.SectionEmits | internal/netlinkmon/monitor.go:165-246 | a section that makes an interface live emits one Add under the name it reports, one that ends it one Remove under the name of its Add, and no other section emits anything about it |
| VethMonitor.Log.KnownIsLastAdded | internal/netlinkmon/monitor.go:208-246 | an interface is known if and only if its last event was an Add |
| VethMonitor.Log.EventsAlternate | internal/netlinkmon/monitor.go:165-246 | in lock order, with resync running, each interface's events alternate starting with Add, and a Remove carries its Add's name |
| VethMonitor.PipeRun.SentIsLive | internal/netlinkmon/monitor.go:165-266 | once both goroutines have sent what they hold about an interface, the last event sent is an Add if and only if it is live, except if that event was overtaken |
| VethMonitor.PipeRun.InOrderWithoutResync | internal/netlinkmon/monitor.go:208-266 | events of an interface that no resync lists are never overtaken |
| VethMonitor.PipeRun.QueueAlternates | internal/netlinkmon/monitor.go:208-266 | the events of such an interface that wait in the channel alternate, opposite to the last one taken |
| VethMonitor.PipeRun.TrackedIffAttached | internal/controller/controller.go:114-142 | at any moment, resync or not, an interface is tracked if and only if its last event taken was an Add, its index is positive and that Add led to no failed attach |
| VethMonitor.PipeRun.DrainedIsLive | internal/controller/controller.go:114-142 | once everything about an interface is sent and taken, it is tracked if and only if it is live, its index is positive and its attach did not fail; an overtaken last event, sent when the interface was no longer as it says, turns live and gone around, and nothing else does |
| VethMonitor.GoneButTracked | internal/netlinkmon/monitor.go:157-175 | a run in which an interface that is gone stays tracked, since the Remove overtook the resync's Add |
| VethMonitor.LiveButUntracked | internal/netlinkmon/monitor.go:157-175 | a run in which a live interface is left without programs, since the resync's Add overtook the Remove before it |
| AttachManager.Attachment.Close | internal/ebpf/attach.go:21-38 | closes exactly the links it still holds and forgets them |
| AttachManager.Manager.Attach | internal/ebpf/attach.go:58-97 | attaches both programs or neither and leaves every interface already tracked alone; open links stay exactly two per tracked interface |
| AttachManager.Manager.Detach | internal/ebpf/attach.go:99-111 | stops tracking one interface and closes its two links |
| AttachManager.Manager.DetachAll | internal/ebpf/attach.go:113-127 | leaves nothing tracked and no link open, and reports an error if and only if a link did |
| AttachManager.HandleEvent | internal/controller/controller.go:114-142 | the manager's tracked set follows the controller's reaction |

## Left out

- Kernel helper internals and checksum offload: helpers are modelled by their contracts. The
  checksum helpers use 16-bit one's complement arithmetic; a `bpf_skb_load_bytes` fails
  exactly when it reads past the packet.
- Races between CPUs inside one program run, and per-CPU counters: a run is atomic and
  counters are unbounded sums over CPUs, so `ReadMetrics` and 64-bit wrap do not appear.
- The conntrack capacity of 65536: the LRU may evict any entry at any time in a run, which
  includes every real eviction order, but the size bound itself is not stated.
- Non-ASCII domain text: `strings.ToLower` on it, and invalid UTF-8.
- `PopulateConfig`, IP and YAML parsing, the metrics address and health check ranges of
  `Validate`: single-branch checks.
- `udpQuery` and timers: a probe is an arbitrary success or failure, and the five-second
  wait of shutdown may expire at any time.
- The select loops of `Monitor.Start` and `Controller.Run`: events that `emit` drops once the
  context is canceled, and the errors those loops return.
- Program loading, map pinning, the metrics collector, sd_notify and logging.
- RuleTable.PopulateSuffixRules: the kernel map is changed by nobody else during the call.
- AttachManager.Manager.DetachAll: closing a link releases it even when an error is reported.
