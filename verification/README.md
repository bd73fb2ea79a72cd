# Hydrascale, modelled and proved

Hydrascale runs one tailscaled per tailnet, each in its own network namespace, and drives the
host toward a YAML file. This project models the parts of the daemon whose rules decide what
reaches what, and proves what those parts promise.

| modules | what they model |
|---|---|
| `Text` | results, decimal numbers, the byte order of strings, the sorted listing of a map |
| `Netfilter`, `AccessRules`, `AccessCompile`, `RestoreFile` | packets and first-match chains; the local rule set and its validator; the compiler to both chains of both address families; the transaction that installs them |
| `CompileCorrect`, `AccessTheorems`, `PublishedPorts` | the meaning of a rule set without chains, and the proof that the written chains have that meaning |
| `AccessLaws` | that meaning once more in the words of the rule language, of the packet and of the addresses, and the command lines word by word |
| `Fingerprint`, `CompiledText`, `Schedule`, `HostTables`, `ChainWriter`, `Coexistence` | the marker of a written set, the commands on a host where any command may fail, the writer, and the operator's own rules beside it |
| `Ipv6Path` | the protocol that writes the IPv6 guard before it opens forwarding, over whole runs |
| `Reconciler` | the plan of one tick, its execution, and the failure, pause and error states over whole histories |
| `DomainClaims`, `SplitDns`, `SplitNames`, `TailnetNames` | the ownership of split DNS domains, what it means for DNS names, the names of tailnets and the alias zones |
| `ServiceNames`, `ServiceRecords`, `HostRecords`, `NameTable` | the DNS label of a service, the services of a tailnet, the records of its peers and services, and the one table of names in the hosts file |
| `NameLaws` | what these names, labels and records are, position by position and letter by letter |
| `HostRoutes`, `HostsFile`, `VethAddresses` | the host routes of a tailnet, the managed block of the hosts file, the addresses of a namespace |
| `PolicyTree`, `PolicyEdits`, `PolicyBytes`, `PolicyForm`, `PolicyDocument` | the syntax tree of a policy document, its byte-preserving edits, and when they keep its form |
| `PolicyLaws` | the whole tree after each edit and each refusal, section by section and entry by entry |
| `StagedRules` | the staged rule set of the web view and its three-way rebase |

## How to read the model

- A chain is a list of rules with first-match semantics. A packet has its devices, its
  destination address as bytes, protocol, port, ICMPv6 type, connection state and redirect flag;
  `token` states whether the rate limit of the log rule still has room.
- A class is an object whose methods change fields in the source: `ChainWriter.Writer`,
  `Ipv6Path.Ipv6`, `Reconciler.State`, `SplitDns.Manager`, `HostRoutes.Manager`, `HostsFile.File`,
  `PolicyDocument.Document`, `StagedRules.AccessState`. Each method is proved against a function
  of its old state, and the theorems are about those functions or about whole runs.
- A method is proved against a function, and a mistake made in both alike would stay. So the main
  functions have laws beside them that do not use them: what the chain does to a packet, which
  actions a plan holds, which routes stay, what a name reads, with each literal written out. The
  modules `AccessLaws`, `NameLaws` and `PolicyLaws` hold those that need several modules; the
  others stand beside their functions (`Reconciler.PlansExactly`, `HostRoutes.LeftAlone`,
  `Coexistence.AppliedDecides`, `Ipv6Path.WantedGuards`).
- Every external command can fail. A host holds a schedule of failures, a failed command changes
  nothing, and an empty schedule is a run without failures. `iptables-restore` is all or nothing.
  The contracts of the writer, of the forwarding steps and of the route steps are exact for every
  schedule: which commands ran, what each one left, and whether the step reports a failure. For
  the reconciler the schedule holds one outcome for each action.
- A state of the IPv6 protocol is safe when each upstream device that forwards for the daemon has
  its guard in the chain and FORWARD jumps to the chain.
- Parameters stand for what is not part of this model: the truncated SHA-256 sum (`hash`, used
  only through its injectivity on the inputs at hand), the text of an address (`text`), the text
  checks on a route destination (`Texts`), the kernel's answer to a route probe, the hujson parser
  and the way it writes a key (`Quote`).
- A loop over a Go map takes the keys in any order, so a contract that names one result proves
  that the order does not show. The table of names shows some orders, and there the theorem ranges
  over all of them: the tailnets, the peers of each one (in two loops of their own), and the
  service reports of each node, whose sort by name promises no order of equal names.

## What the proofs found

Each point is a lemma that names the input or the exact condition.

- An enable step that fails part way records no device, and the next tick then writes chains
  without the guard of the device that already forwards (`PartialEnableLosesTheGuard`, a run of
  two ticks). The comment on `enableIPv6Forwarding` does not say this; the model follows the code.
- The first rule of the out chain accepts an established packet of every device, so an operator
  rule below the jump never sees it (`EstablishedSkipsTheOperator`, exact in
  `EstablishedDiffersExactly`).
- A tailnet may have the id `internet` or `host`. The compiler reads the literal first, so no
  rule opens a path to or from the namespace of such a tailnet, and every other path can be
  opened (`LiteralIdsAreCutOffExactly`).
- A split domain report with two trailing dots keeps one of them. In that form `ts.net` passes the
  check for the reserved zone, the suffix of another tailnet survives as a split domain, and one
  name survives at two tailnets (`TwoDotsEscapeTheBaseZone`, `TwoDotsEscapeASuffix`,
  `TwoDotsGiveTwoOwners`). The comment of `normalizeSplitDomain` rules this out. The exact
  conditions are `BaseZoneSurvivesExactly`, `ReservedNameSurvivesExactly` and
  `NameSurvivesTwiceExactly`.
- A poll that lacks a node takes rules from the staged set that the operator never touched, and a
  later rebase deletes them from the rules of the daemon (`RebaseDeletesAnUntouchedRule`, exact in
  `RebaseSparesOthersExactly`).
- `baseChanged` counts rules instead of paths. Where the set that an edit began on holds one rule
  twice, the daemon may hold another rule in place of the copy and the view reports no change
  (`ACopyHidesANewRule`, exact in `SameRulesExactly`).
- A new policy entry copies the text behind the last newline before the last entry, which the
  comment calls whitespace. Behind a block comment of two lines that text is the end of the
  comment (`CommentBreaksTheNewEntry`). Each text between two tokens of the document stays blanks
  and comments exactly when the copied texts, read from their own start, are blanks and whole
  block comments (`EditKeepsTheFormExactly`, over every edit). The bytes of a document that lost
  that form may still be huJSON, with the new entry inside a comment
  (`EntryVanishesInAComment`).
- A stray marker in the hosts file makes every update append another block, or makes the second
  update delete the operator's text (`StrayEndMarkerGrows`, `UnclosedMarkerLosesText`; the exact
  condition is `SecondUpdateIsIdleExactly`).
- A wanted route that the parser of the route list leaves out, such as one inside the infra
  subnet, is written again in every cycle (`SecondSyncIsIdleExactly`).
- A service record without an address is dropped, and it keeps its label from the next service
  all the same (`DroppedRecordTakesTheLabel`, exact in `LabelIsHeldExactly`). The ids `home` and
  `home-lab` give two records one name (`TwoTailnetsOneName`, exact in
  `RecordNamesCollideExactly`). A peer without IPv6 shares its alias name with a service that has
  it (`AddServiceAliasRecords`).
- Two nodes of one tailnet with one host name get one name, and the order of a Go map decides
  which address it has (`TwoPeersOneName`). One service that two nodes report with two addresses
  answers under the address of the node that the daemon meets first (`TwoReportsOneService`). The
  table of names is the same in every map order exactly when, for each name, the peers that claim
  it agree, within one tailnet and across tailnets, or no peer claims it and the services that may
  answer for it agree (`OneTableExactly`).
- Two tailnets that want one destination leave it at the device of the one that synced last
  (`TailnetsCommuteExactly`).
- An uninstall runs in a process that opened no device, so it resets the upstream devices of
  today; a device that was one only before keeps forwarding without its guard (`Uninstall`).
- A rename of a policy key and its reverse restore the document only when the key was written in
  canonical quotes (`RenameBackExactly`).

## Model

| member | source | states |
|---|---|---|
| `AccessRules.ParsePortIsPort` | internal/access/rules.go:64-84 | every entry that the parser accepts names tcp or udp and two port numbers in order |
| `AccessRules.ParsePortRoundTrip` | internal/access/rules.go:64-84 | every port has a text that parses back to exactly that port, so the parser refuses no port and swaps no two numbers |
| `AccessRules.ParsePortOfForm` | internal/access/rules.go:64-84 | tcp or udp, a slash and one or two numbers: the entry parses to exactly these numbers, or fails by the range 1 to 65535 before it fails by their order |
| `AccessRules.ParsePortRefusesTheForm` | internal/access/rules.go:64-69 | the form is refused exactly when the entry is not a protocol, a slash and one number or two with a hyphen |
| `AccessRules.PortEntries` | internal/access/rules.go:60-84 | tcp/22, udp/1-22, tcp/22-1, tcp/0 and tcp-22, as the documentation of the parser has them |
| `AccessRules.ParsePublishPortExactly` | internal/access/rules.go:176-191 | a published port parses exactly when the entry is one port, and a range is told as one |
| `AccessRules.Validate` | internal/access/rules.go:100-160 | returns no failure exactly when the mode is empty, enforce or observe and each rule names a declared source other than internet, a known target that is not its source, and parsable ports; each rule is told by its number exactly when one of its checks fails |
| `AccessRules.CoversHost` | internal/access/rules.go:198-214 | answers true exactly when some rule from the tailnet to the word host covers the port |
| `AccessCompile.PrefixRange` | internal/access/compile.go:138-148 | the byte loop of prefixRange prints the network address and the last address of the prefix |
| `AccessCompile.ListenAccepts` | internal/access/compile.go:191-202 | the loop over the sorted ids gives one DNAT rule for each namespace with a listen port, in order |
| `AccessCompile.AppendRules` | internal/access/compile.go:264-280 | the loop fails exactly when some rule does not compile, and otherwise fills both chains in the order of the rules |
| `AccessCompile.CompileFamily` | internal/access/compile.go:260-294 | both chains in full: established first, then the open traffic, then the rules, then the tail |
| `AccessCompile.Compile` | internal/access/compile.go:162-184 | the IPv4 chains, or an error exactly when the set is invalid or the resolver is malformed |
| `AccessCompile.CompileIPv6` | internal/access/compile.go:213-244 | the IPv6 chains with one guard per upstream device, or an error exactly when the set is invalid or a host prefix does not parse; what its literals let through is stated in AccessLaws.NeighborDiscoveryPasses and OutInPlainTermsV6 |
| `AccessCompile.ValidRuleCompiles` | internal/access/compile.go:308-334 | after Validate no port parse and no device lookup of the compiler fails |
| `AccessCompile.MalformedPrefix` | internal/access/compile.go:219-226 | one malformed host prefix makes the range list fail, whatever the other prefixes are |
| `Text.BeforeExactly` | internal/access/compile.go:247-254 | the order of the sorted ids: a proper prefix first, and otherwise the first byte that differs decides |
| `CompileCorrect.CompiledEnds` | internal/access/compile.go:308-334 | a valid rule compiles, to the chain of its ends, and its matches hold of a packet exactly when the packet runs between the two ends |
| `CompileCorrect.WithPortsHolds` | internal/access/compile.go:338-351 | some alternative matches a packet exactly when the rule matches it and some port entry covers it |
| `CompileCorrect.RuleMatches` | internal/access/compile.go:308-351 | some compiled rule of one allow-rule matches a packet exactly when the allow-rule allows it |
| `CompileCorrect.RulesWalk` | internal/access/compile.go:264-280 | the operator's part of a chain accepts exactly what some rule of the set allows and logs nothing |
| `CompileCorrect.ListenWalk` | internal/access/compile.go:191-202 | the listen rules accept exactly the redirected UDP of a namespace to its own port |
| `CompileCorrect.ResolverWalk` | internal/access/compile.go:173-181 | the resolver rules accept exactly DNS from a declared namespace to the forwarder, over UDP and TCP |
| `CompileCorrect.DiscoveryWalk` | internal/access/compile.go:228-234 | the discovery rules accept exactly ipv6-icmp of the types neighbour-solicitation and neighbour-advertisement from a declared namespace |
| `CompileCorrect.OutTailsWalk` | internal/access/compile.go:285-291 | the tail of the out chain closes exactly the packets of declared namespaces |
| `CompileCorrect.GuardWalk` | internal/access/compile.go:240-242 | the guard drops exactly the packets of a guarded device to a device that is no namespace device |
| `CompileCorrect.ForwardVerdict` | internal/access/writer.go:338-369 | first-match verdict and log of the whole written forward chain, for every rule set, family, mode and packet |
| `CompileCorrect.OutVerdict` | internal/access/writer.go:338-369 | first-match verdict and log of the whole written out chain |
| `AccessTheorems.PrefixRangeExact` | internal/access/compile.go:138-148 | an address lies between the two printed ends exactly when the prefix contains it, for every address length and every mask |
| `AccessTheorems.RangesExact` | internal/access/compile.go:219-226 | the ranges built from a list of prefixes cover exactly those prefixes |
| `AccessTheorems.TablesAreBlocks` | internal/access/compile.go:107-122 | the two constant tables are the ranges of RFC 1918 section 3, unique local, link-local and loopback |
| `AccessTheorems.InternetExact` | internal/access/compile.go:128-134 | the internet target excludes exactly the private blocks, and in IPv6 the host prefixes as well |
| `AccessTheorems.TailWalk` | internal/access/compile.go:24-63 | the enforce tail drops and never logs; the observe tail accepts and logs within its rate limit |
| `AccessTheorems.ForwardCorrectV4` | internal/access/compile.go:162-184 | compiler correctness of the IPv4 forward chain: accept, drop, return and log for every rule set and packet |
| `AccessTheorems.ForwardCorrectV6` | internal/access/compile.go:213-244 | compiler correctness of the IPv6 forward chain, guard included |
| `AccessTheorems.OutCorrectV4` | internal/access/compile.go:260-294 | compiler correctness of the IPv4 out chain |
| `AccessTheorems.OutCorrectV6` | internal/access/compile.go:213-244 | compiler correctness of the IPv6 out chain |
| `AccessTheorems.ObserveRefinesEnforceV4` | internal/access/compile.go:44-63 | for every packet and both chains, observe accepts what enforce denies for want of a rule, agrees on every other packet, and logs exactly the denied ones within the rate limit |
| `AccessTheorems.ObserveRefinesEnforceV6` | internal/access/compile.go:44-63 | the same in IPv6, where a guarded packet is dropped in both modes and not logged |
| `AccessTheorems.MoreRulesAcceptMore` | internal/access/compile.go:264-280 | in either mode, a rule set with more rules accepts in both chains every packet that the smaller one accepts |
| `AccessTheorems.MoreRulesAcceptMoreV6` | internal/access/compile.go:213-244 | the same in IPv6 |
| `AccessTheorems.OrderAndDuplicatesDoNotShow` | internal/access/compile.go:264-280 | the verdict does not depend on rule order or on duplicates |
| `AccessTheorems.OrderAndDuplicatesDoNotShowV6` | internal/access/compile.go:213-244 | the same in IPv6 |
| `AccessTheorems.NamespacesAreIsolated` | internal/access/compile.go:308-334 | a new packet crosses from one namespace to another exactly when the mode is observe, or a rule names both and its port and neither id is a literal of the rule language |
| `AccessTheorems.NamespacesAreIsolatedV6` | internal/access/compile.go:308-334 | the same in IPv6 |
| `AccessTheorems.LiteralIdsAreCutOffExactly` | internal/access/compile.go:308-334 | some valid rule set lets a new packet cross from one namespace to another exactly when the two ids differ and neither is host or internet |
| `AccessTheorems.LiteralIdsAreCutOffExactlyV6` | internal/access/compile.go:308-334 | the same in IPv6 |
| `AccessLaws.ForwardInPlainTermsV4` | internal/access/compile.go:162-184 | the written IPv4 forward chain in literals: Returned without a vh device, accepted when established, redirected UDP to the listen port, allowed by a rule or in the mode observe, dropped otherwise; the internet excludes 10/8, 172.16/12, 192.168/16, 169.254/16 and 127/8 |
| `AccessLaws.ForwardInPlainTermsV6` | internal/access/compile.go:213-244 | the same in IPv6: a guarded input to a device outside the namespaces is dropped first, and the internet excludes fc00::/7, fe80::/10, ::1 and the prefixes of the host |
| `AccessLaws.OutInPlainTermsV4` | internal/access/compile.go:260-294 | the written IPv4 out chain in literals: a declared device reaches the host when established, for a udp or tcp query to the forwarder, by a rule to host, or in the mode observe; other devices fall through |
| `AccessLaws.OutInPlainTermsV6` | internal/access/compile.go:213-244 | the same in IPv6, where the free traffic is ipv6-icmp of the types neighbour-solicitation and neighbour-advertisement |
| `AccessLaws.NeighborDiscoveryPasses` | internal/access/compile.go:228-234 | in every mode the out chain of CompileIPv6 accepts a neighbour-solicitation and a neighbour-advertisement of a declared device, and in enforce it drops a new ICMPv6 message of any other type that no rule covers |
| `AccessLaws.BlocksInNumbersV4` | internal/access/compile.go:107-113 | an address lies in the excluded IPv4 blocks exactly by its first one or two bytes, in numbers |
| `AccessLaws.BlocksInNumbersV6` | internal/access/compile.go:118-122 | the same for the IPv6 blocks |
| `AccessLaws.PrefixIsItsLeadingBits` | internal/access/compile.go:138-148 | a prefix holds exactly the addresses that share its leading bits, bit by bit, for every length |
| `AccessLaws.TailOfMode` | internal/access/compile.go:52-63 | the modes are enforce, observe and the empty text, which enforces; every other mode has no tail |
| `AccessLaws.FixedRuleTexts` | internal/access/writer.go:338-360 | the arguments of the established rule, the RETURN rule, the guard and the marker, word by word |
| `AccessLaws.ListenRuleText` | internal/access/compile.go:191-202 | the arguments of a listen rule |
| `AccessLaws.ResolverRuleText` | internal/access/compile.go:173-181 | the arguments of a DNS rule |
| `AccessLaws.DiscoveryRuleText` | internal/access/compile.go:228-234 | the arguments of a discovery rule |
| `AccessLaws.OperatorRuleText` | internal/access/compile.go:308-351 | the arguments of a rule between two namespaces with a port range |
| `AccessLaws.InternetRuleText` | internal/access/compile.go:128-134 | the arguments of a rule to the internet |
| `AccessLaws.ClosingRuleTexts` | internal/access/compile.go:24-48 | the arguments of the closing rules: DROP, and the limited LOG with its prefix in front of ACCEPT |
| `RestoreFile.RunFileResult` | internal/access/writer.go:338-369 | the restore file, run as one transaction on any tables, leaves marker, guard, RETURN, rules and tail in the two chains and touches no other chain |
| `RestoreFile.RestoreLines` | internal/access/writer.go:338-369 | the loops of restoreFile print exactly that file |
| `Fingerprint.RulesBytesInjective` | internal/access/writer.go:318-330 | the byte form of a list of argument lists is injective when no argument holds NUL or newline |
| `Fingerprint.ArgsInjective` | internal/access/writer.go:318-330 | two rules of one family with equal argument lists are equal |
| `Fingerprint.PartsUnique` | internal/access/writer.go:318-330 | the concatenation of the three lists splits in one way, because every rule names its chain |
| `Fingerprint.SerializeInjective` | internal/access/writer.go:318-330 | equal fingerprint input means equal guard, forward and out lists |
| `Fingerprint.Bytes` | internal/access/writer.go:318-330 | the two loops of fingerprint feed exactly that byte string |
| `AccessLaws.HashReads` | internal/access/writer.go:318-330 | the hash reads the forward rules, then the out rules, then the guard |
| `AccessLaws.HashSeparators` | internal/access/writer.go:318-330 | a zero byte stands behind each argument and a newline behind each rule |
| `CompiledText.CompiledV4Serializable` | internal/access/compile.go:260-302 | every compiled IPv4 set meets the conditions of the injectivity theorem |
| `CompiledText.CompiledV6Serializable` | internal/access/compile.go:213-302 | every compiled IPv6 set meets them |
| `ChainWriter.MarkerOfLive` | internal/access/writer.go:303-313 | the marker read back from a written chain is the marker that was written |
| `ChainWriter.FirstMarkerCounts` | internal/access/writer.go:303-313 | the fingerprint of a listing is the text behind hydrascale: in the first rule that carries one, and empty when none does |
| `ChainWriter.PlacementMeaning` | internal/access/writer.go:223-242 | a placement names the first daemon jump and every rule above it, and it is absent exactly when there is no jump |
| `ChainWriter.PlacementOf` | internal/access/writer.go:223-242 | the loop over the listed rules computes that placement |
| `ChainWriter.RemoveFirstExactly` | internal/access/writer.go:181-191 | a removal takes out the first jump and no other rule |
| `ChainWriter.OperatorKeepsItsRules` | internal/access/writer.go:116-208 | Apply and Teardown keep every operator rule in order and every other chain |
| `ChainWriter.ApplyIdempotent` | internal/access/writer.go:116-140 | a second Apply of the same set reaches the same state |
| `ChainWriter.TeardownUndoesApply` | internal/access/writer.go:181-191 | Teardown after Apply leaves any host without both chains and without its first jump into each, and otherwise as it was; the parents are restored where they held no jump |
| `ChainWriter.Writer.MarkProvesContent` | internal/access/writer.go:116-175 | equal markers prove equal chain content, as long as only the daemon writes marked chains |
| `ChainWriter.Writer.LiveFingerprints` | internal/access/writer.go:269-283 | reads both markers, or fails without a write |
| `ChainWriter.Writer.EnsureJumpRule` | internal/access/writer.go:199-208 | without a failure the parent is as it was when it held the jump, and has the jump at position 1 in front of all its rules when it did not; the contract says for every schedule what happened and how many commands ran |
| `ChainWriter.Writer.Apply` | internal/access/writer.go:116-140 | for every schedule of failures: the exact state, failure and number of commands; a failed write ends it with the host as it was, the second jump step runs when the first one failed, operator rules stay in order; without a failure HYDRASCALE-FWD stands first in FORWARD and HYDRASCALE-OUT first in INPUT unless the parent held that jump already, and a host that holds the set sees no write |
| `ChainWriter.Writer.SecondJumpGoesOn` | internal/access/writer.go:116-140 | a failed read of FORWARD leaves FORWARD as it was, and INPUT still gets its jump at position 1 |
| `ChainWriter.Writer.Check` | internal/access/writer.go:146-175 | Check writes nothing and is empty exactly when Apply would write nothing; it names each chain that is absent or holds another fingerprint, with that fingerprint, and each parent without its jump |
| `ChainWriter.Writer.NeedsNoWriteExactly` | internal/access/writer.go:146-175 | the host needs no write exactly when both chains and both jumps are as applied |
| `ChainWriter.Writer.Teardown` | internal/access/writer.go:181-191 | for every schedule of failures: each of the six commands runs, a jump goes unless its own command fails, a chain goes exactly unless its delete fails, a failed flush leaves rules in it or a jump holds it, and operator rules and other chains stay |
| `ChainWriter.Writer.EveryStepOfTeardownRuns` | internal/access/writer.go:181-191 | which command of the six does what: each jump goes unless its own command fails, and each chain goes unless its delete fails, its flush left rules or a jump holds it |
| `Coexistence.JumpsThatReturnDoNotShow` | internal/access/writer.go:356-360 | a jump into a chain that returns leaves the verdict of the parent alone, wherever it stands |
| `Coexistence.AppliedDecides` | internal/access/writer.go:199-208 | after an Apply without failures on a parent that held no jump, the jump stands at position 1 with nothing above it; what the chain accepts or drops is the verdict of FORWARD and of INPUT for any operator rules, and what it returns is decided by the operator as before |
| `Coexistence.ForwardNonInterference` | internal/access/writer.go:356-360 | a forwarded packet that touches no namespace and no guard gets the operator's verdict, IPv6 |
| `Coexistence.ForwardNonInterferenceV4` | internal/access/writer.go:356-360 | the same in IPv4 |
| `Coexistence.InputNonInterference` | internal/access/compile.go:285-291 | on INPUT every new packet from an undeclared device gets the operator's verdict |
| `Coexistence.InputNonInterferenceV6` | internal/access/compile.go:285-291 | the same in IPv6 |
| `Coexistence.EstablishedSkipsTheOperator` | internal/access/compile.go:260-262 | the established condition is needed: the first out rule accepts an established packet of any device before the operator's rules see it |
| `Coexistence.EstablishedDiffersExactly` | internal/access/compile.go:260-262 | the verdict of INPUT about an established packet differs from that of the operator rules alone exactly when no rule above the jump decides and the operator rules do not accept, IPv4 |
| `Coexistence.EstablishedDiffersExactlyV6` | internal/access/compile.go:260-262 | the same in IPv6 |
| `Ipv6Path.UnionElements` | internal/reconciler/ipv6.go:185-193 | the union holds the members of both lists |
| `Ipv6Path.GuardExactly` | internal/reconciler/ipv6.go:64-81 | in a written chain a device is guarded exactly when the guard list names it |
| `Ipv6Path.SafeExactlyWhenCovered` | internal/reconciler/ipv6.go:64-81 | a host with a written chain is safe exactly when the guard list covers every upstream device that forwards for the daemon and FORWARD jumps to the chain, if there is such a device |
| `Ipv6Path.SafeHostDropsGuarded` | internal/access/writer.go:356-360 | on a safe host FORWARD itself drops every packet from an opened upstream device to a device outside the namespaces, unless a rule above the jump decides about it |
| `Ipv6Path.Ipv6.PlanIPv6` | internal/reconciler/ipv6.go:37-81 | mode and failure by the facts alone; on a host that forwards already, or in the other mode, the planned chain returns every packet that touches no vh device, and otherwise a packet to a device outside the namespaces is dropped when its input is a recorded or a current upstream and returned when it is any other outside device |
| `Ipv6Path.WantedGuards` | internal/reconciler/ipv6.go:64-70 | the guard of a tick packet by packet: none on a host that forwards already, in the other mode or without upstreams, and otherwise exactly the recorded and the current upstreams |
| `Ipv6Path.ForwardIsTheOperators` | internal/reconciler/ipv6.go:64-70 | behind chains without a guard FORWARD decides about a packet outside the namespaces as the rules of the operator alone |
| `Ipv6Path.Ipv6.WritePlan` | internal/reconciler/ipv6.go:90-117 | the plan and the write together: the chains are held exactly when there is a mode, a valid rule set and no failure, and from a safe host the write is safe exactly on the condition of Run |
| `Ipv6Path.Ipv6.EnableForceForwarding` | internal/namespaces/ipv6.go:117-134 | for every schedule: turns on the devices that are off, in order, and stops at the first command that fails; it reports exactly the devices it wrote |
| `Ipv6Path.Ipv6.Tick` | internal/reconciler/ipv6.go:90-148 | from a safe host, every state that a tick passes through is safe exactly when it does not come to hold its chains or its guard list covers the devices that forward already, whatever commands fail; without failures the host side device of each namespace forwards afterwards |
| `Ipv6Path.Ipv6.OpenForwarding` | internal/reconciler/ipv6.go:118-182 | forwarding opens only behind written chains, and the devices are recorded unless the enable step failed |
| `Ipv6Path.Ipv6.Shutdown` | internal/reconciler/reconciler.go:1545-1567 | resets the keys before the chains go, removes the chains also when a reset failed; from a safe host every state is safe exactly when every device is reset, or the flush of the chain fails and a jump stays |
| `Ipv6Path.Ipv6.DisableForceForwarding` | internal/namespaces/ipv6.go:140-150 | for every schedule: each device whose own command succeeds is off afterwards, no other device changes, and no failure stops a later reset |
| `Ipv6Path.Ipv6.Uninstall` | internal/reconciler/uninstall.go:43-66 | after an uninstall the host is safe exactly when every device that an earlier daemon opened is an upstream now |
| `Ipv6Path.Run` | internal/reconciler/ipv6.go:64-182 | guard before forwarding over every run of ticks and a shutdown: the host is safe after every single command exactly when each tick that comes to hold its chains covers the devices that forward already, and the shutdown resets every such device or fails to remove the guards |
| `Ipv6Path.PartialEnableLosesTheGuard` | internal/reconciler/ipv6.go:152-162 | a run of two ticks on an empty host whose tenth command fails ends in an unsafe state, so that condition of Run is needed |
| `Ipv6Path.FailedProbeLosesTheGuard` | internal/reconciler/ipv6.go:37-81 | a failed probe of force_forwarding writes chains without a guard, safe exactly when nothing forwards for the daemon |
| `PublishedPorts.ValidateEntry` | internal/config/config.go:325-345 | one entry fails by the first that applies: a text that does not parse, a port of an earlier entry, a port that no rule opens; the last one is looked for with host access only |
| `PublishedPorts.ValidateOne` | internal/config/config.go:321-347 | passes exactly when the tailnet is publishable, and tells of host access exactly when the tailnet publishes without it |
| `PublishedPorts.ValidatePublish` | internal/config/config.go:314-350 | passes exactly when each tailnet that publishes has host access, and each of its entries is one port, repeats none and is opened by a rule to the host |
| `PublishedPorts.CoversHostIsReachable` | internal/access/rules.go:198-214 | a new packet to a host port is accepted by the written IPv4 out chain exactly when the mode is observe, CoversHost holds or it is a query to the forwarder, and observe logs exactly the rest |
| `PublishedPorts.CoversHostIsReachableV6` | internal/access/rules.go:198-214 | the same in IPv6, where neighbor discovery needs no rule |
| `PublishedPorts.PublishedPortIsReachable` | internal/config/config.go:314-350 | no published port of an accepted configuration is dropped, in either family |
| `Reconciler.TickCases` | internal/reconciler/reconciler.go:739-891 | the namespace, the pending flag and the access rules after one failure-free tick, for an absent, a stopped and a running daemon and for an undeclared tailnet |
| `Reconciler.ConvergedIsStable` | internal/reconciler/reconciler.go:508-586 | a converged tailnet stays converged and plans periodic actions only |
| `Reconciler.ConvergesInTwoTicks` | internal/reconciler/reconciler.go:508-586 | from any state, after two ticks and at every later tick, the namespaces are the declared ones and only periodic actions are planned |
| `Reconciler.OneTickIsNotEnough` | internal/reconciler/reconciler.go:556-574 | the bound is tight: after one tick a teardown is still planned |
| `Reconciler.LimitImpliesError` | internal/reconciler/reconciler.go:1438-1447 | three failing cycles in a row without a reset put a tailnet into the error state |
| `Reconciler.ThirdFailureCounts` | internal/reconciler/reconciler.go:605-623 | from a clean start two failing cycles are no error, the third one is, and a cycle without a failure starts the count anew |
| `Reconciler.ResetsClear` | internal/reconciler/reconciler.go:1375-1392 | a reset clears count, error and pause of its tailnet and nothing of another; the reset of all errors keeps the pauses |
| `Reconciler.ErrorHoldsUntilReset` | internal/reconciler/reconciler.go:1375-1392 | over every later history the error state holds until its reset |
| `Reconciler.PauseHoldsUntilReset` | internal/reconciler/reconciler.go:1351-1392 | a pause holds until the reset of that tailnet, and the reset of all errors keeps it |
| `Reconciler.State.PlanDesired` | internal/reconciler/reconciler.go:508-575 | the plan of one declared tailnet, action by action: each action is in it exactly when the state of the daemon, the key, the pending flag and the host access say so, once and in its place |
| `Reconciler.PlanHasExactly` | internal/reconciler/reconciler.go:508-586 | the plan of every tailnet in every state holds each of the nine actions exactly when its condition holds, once and in its place |
| `Reconciler.KindsExactly` | internal/reconciler/reconciler.go:508-586 | what the plan of one tailnet is in the list of all actions |
| `Reconciler.State.Diff` | internal/reconciler/reconciler.go:508-586 | for every tailnet and every map order: SyncRoutes exactly when it is declared, free and running, AuthDaemon exactly when it is declared, free, without a namespace and with a key, RefreshDNS exactly on a restart or a pending refresh, and so on for all nine actions, each in its place; a restart leaves a refresh pending |
| `Reconciler.State.ExecuteAction` | internal/reconciler/reconciler.go:739-891 | one action changes its own tailnet only, and as its outcome says: success, a success that hides an inner failure, a failure before or after the first effect; the effect of each action on the daemon, the pending flag and the access rules is named |
| `Reconciler.State.RunActions` | internal/reconciler/reconciler.go:591-605 | every action runs whatever failed before it: a tailnet fails exactly when one of its own actions does, and its state is the fold of its own actions and outcomes |
| `Reconciler.OthersDoNotShow` | internal/reconciler/reconciler.go:588-605 | changed outcomes of other tailnets change neither the steps of a tailnet nor whether it fails |
| `Reconciler.SuccessfulSteps` | internal/reconciler/reconciler.go:588-605 | a tailnet whose own actions succeed sees its whole plan run |
| `Reconciler.State.CountFailures` | internal/reconciler/reconciler.go:605-623 | the counters and the error set stay equal to the streaks of the history |
| `Reconciler.State.Apply` | internal/reconciler/reconciler.go:591-623 | one whole cycle: the failure set is exact, the counters follow it, and each tailnet depends on its own actions only |
| `Reconciler.State.Reconcile` | internal/reconciler/reconciler.go:913-970 | one tick under any failures, tailnet by tailnet, with the check of the DNS protection at its end; the plan holds each action exactly by state, and no action for a declared tailnet in the error or the paused state; a free tailnet whose own actions succeed takes its failure-free tick whatever the others do, and it is blocked then exactly when it is declared and unprotected |
| `Reconciler.State.StopTailnet` | internal/reconciler/reconciler.go:1351-1361 | an operator stop that succeeds pauses the tailnet and stops its daemon, one that fails leaves the history as it was, and no other tailnet changes |
| `Reconciler.State.Reset` | internal/reconciler/reconciler.go:1375-1383 | clears count, error and pause of one tailnet |
| `Reconciler.State.ResetAllErrors` | internal/reconciler/reconciler.go:1386-1392 | clears every count and every error, and no pause |
| `Reconciler.State.MarkUnprotected` | internal/reconciler/reconciler.go:1141-1163 | lost DNS protection puts a tailnet into the error state |
| `Reconciler.State.CheckProtection` | internal/reconciler/reconciler.go:1141-1163 | the check marks exactly the declared tailnets without protection, in any map order |
| `Reconciler.Loop` | internal/reconciler/reconciler.go:1201-1223 | a run of ticks with any failures and any checks: every tailnet that is free, whose own actions succeed and that no tick finds unprotected is converged from the second tick on, and a declared one that a tick finds unprotected is blocked from then on |
| `DomainClaims.SurvivesExactly` | internal/hostaccess/hostaccess.go:300-367 | a domain survives exactly at the least tailnet that reports it, and only when no suffix and no alias zone holds it |
| `DomainClaims.SurvivorsAreDisjoint` | internal/hostaccess/hostaccess.go:329-367 | no normal form survives twice, across tailnets or in one list |
| `DomainClaims.EveryReportIsSettled` | internal/hostaccess/hostaccess.go:329-367 | every usable report survives or lost to a reserved name or a lesser id |
| `DomainClaims.SomeoneKeeps` | internal/hostaccess/hostaccess.go:329-367 | a report that nobody reserves survives at some tailnet |
| `DomainClaims.OwnSuffixDoesNotSurvive` | internal/hostaccess/hostaccess.go:351-361 | a tailnet that reports its own MagicDNS suffix loses it, and no other tailnet keeps it |
| `DomainClaims.ClaimReserved` | internal/hostaccess/hostaccess.go:301-319 | pass 1 reserves exactly the suffixes and the alias zones of the active tailnets, each one for the least tailnet that has it |
| `DomainClaims.ClaimDomains` | internal/hostaccess/hostaccess.go:329-366 | pass 2 for one tailnet: kept domains, owners and conflict messages after any prefix of its reports |
| `DomainClaims.Ownership` | internal/hostaccess/hostaccess.go:292-367 | both passes give every tailnet its survivors and every lost report its message, for every map order; a reserved name belongs to the least tailnet that reserves it, and every other owned name survives at its owner |
| `DomainClaims.EventList` | internal/hostaccess/hostaccess.go:391-402 | one event for each new message, in the order of the messages |
| `SplitDns.TwoDotsEscapeTheBaseZone` | internal/hostaccess/hostaccess.go:269-275 | the exception is real: ts.net with two dots survives |
| `SplitNames.KeptExactly` | internal/hostaccess/hostaccess.go:264-275 | one spelling of a name survives somewhere exactly when a report spells it so and nobody reserves that spelling |
| `SplitNames.BaseZoneSurvivesExactly` | internal/hostaccess/hostaccess.go:333-346 | some survivor names ts.net or a name below it exactly when a report of such a name ends in two dots and nobody reserves that spelling |
| `SplitNames.ReservedNameSurvivesExactly` | internal/hostaccess/hostaccess.go:301-366 | some survivor is, as a DNS name, a MagicDNS suffix or an alias zone exactly when a report and a reserved name spell one name in two ways and nobody reserves the spelling of the report |
| `SplitNames.NameSurvivesTwiceExactly` | internal/hostaccess/hostaccess.go:264-367 | one DNS name survives twice exactly when one report of it ends in two dots, another one does not, and nobody reserves either spelling |
| `SplitNames.TwoDotsEscapeASuffix` | internal/hostaccess/hostaccess.go:301-366 | the exception is real: a report with two dots survives beside the suffix of another tailnet |
| `SplitNames.TwoDotsGiveTwoOwners` | internal/hostaccess/hostaccess.go:329-366 | the exception is real: one name survives at two tailnets at once |
| `SplitNames.OneNameTwoForms` | internal/hostaccess/hostaccess.go:269-275 | the reports a and a.. name one domain and have two normal forms |
| `SplitDns.Manager.SyncSplit` | internal/hostaccess/hostaccess.go:292-403 | the report of a tick is right, and events go out for exactly the messages that the previous tick did not hold |
| `NameLaws.KeepsExactly` | internal/hostaccess/hostaccess.go:292-367 | from the configuration and the status alone: a tailnet keeps a domain exactly when it reports it, no suffix and no alias zone of an active tailnet is that name, and no lesser tailnet reports it |
| `NameLaws.ConflictText` | internal/hostaccess/hostaccess.go:351-356 | the message of a lost domain, word by word, with the loser and the owner in their places |
| `NameLaws.NormalizeExactly` | internal/hostaccess/hostaccess.go:264-275 | a report loses the spaces at both ends and one dot at its end, turns to lower case, and stands when it is at most 253 characters of good labels |
| `NameLaws.ReportExactly` | internal/hostaccess/hostaccess.go:333-346 | a report is no claim exactly when it has no normal form or names ts.net or a name below it |
| `NameLaws.ValidLabelsExactly` | internal/hostaccess/resolved.go:39-60 | the label test on the whole name: letters, digits and inner hyphens, no empty label, none of more than 63 characters |
| `StagedRules.DifferenceBetween` | internal/ui/static/access.js:80-98 | the difference names every path that the two sets treat differently, and no other |
| `StagedRules.EmptyExactlyWhenSame` | internal/ui/static/access.js:122-129 | the staged count is zero exactly when both sets allow the same |
| `StagedRules.SameAsItselfExactly` | internal/ui/static/access.js:62-71 | sameRules is reflexive exactly on sets that do not contradict themselves |
| `StagedRules.SameRulesExactly` | internal/ui/static/access.js:60-71 | on sets that name each path once sameRules answers exactly whether both allow the same; on other sets each of its two errors has its exact condition |
| `StagedRules.ACopyHidesANewRule` | internal/ui/static/access.js:60-71 | the exception is real: with one rule twice in the old set, any other rule in place of the copy goes unseen |
| `StagedRules.LastRuleCounts` | internal/ui/static/access.js:66-98 | the ports of a path are those of the last rule that names it |
| `StagedRules.PollSplits` | internal/ui/static/access.js:149-175 | a poll keeps exactly the rules with both ends among the reported nodes and drops the others |
| `StagedRules.AccessState.BaseChangedExactly` | internal/ui/static/access.js:202-204 | an open edit reports a changed base exactly when the rules that it began on and those of the daemon allow different paths or ports |
| `StagedRules.AccessState.SetBase` | internal/ui/static/access.js:149-175 | a clean view takes the answer; a view with edits keeps, in order, exactly the rules whose two ends the daemon still reports and moves every other rule to the dropped list, touched or not |
| `StagedRules.AccessState.SetRules` | internal/ui/static/access.js:176-188 | stages rules, keeps an edit base exactly while they differ from the daemon, and counts the paths it changed as touched |
| `StagedRules.AccessState.Discard` | internal/ui/static/access.js:189-201 | returns to the rules of the daemon |
| `StagedRules.AccessState.Rebase` | internal/ui/static/access.js:213-232 | three-way merge over every run: a path that the operator changed keeps his ports and every other one takes those of the daemon; a path that he did not touch takes the value of the daemon exactly when the polls since the edit began left the path as it was or left it what the daemon holds; on an unchanged base, so also when repeated, it changes no path |
| `StagedRules.RebaseSparesOthersExactly` | internal/ui/static/access.js:213-232 | a rebase leaves every untouched path to the daemon exactly when the daemon holds none of the untouched paths that lost an end to a poll |
| `StagedRules.RebaseDeletesAnUntouchedRule` | internal/ui/static/access.js:149-232 | the exception is real: a run whose rebase deletes a rule of the daemon that the operator never touched |
| `StagedRules.MergeCases` | internal/ui/static/access.js:213-232 | the three edit lists of a rebase apply as that merge, path by path |
| `StagedRules.DisjointEditsBothSurvive` | internal/ui/static/access.js:213-232 | two operators who touch different paths both keep their edits, in either order |
| `PolicyDocument.Document.Parse` | internal/policy/document.go:22-62 | a document is built exactly when no top-level key occurs twice |
| `PolicyDocument.Document.AddEntry` | internal/policy/document.go:219-242 | appends one entry or creates the section; a failure changes nothing; one range of bytes changes |
| `PolicyDocument.Document.ReplaceEntry` | internal/policy/document.go:249-263 | replaces one value, with its checks in order |
| `PolicyDocument.Document.RemoveEntry` | internal/policy/document.go:269-279 | removes one entry and keeps the section |
| `PolicyDocument.Document.AddMapEntry` | internal/policy/document.go:286-312 | adds one key, or fails exactly when the section holds it |
| `PolicyDocument.Document.ReplaceMapEntry` | internal/policy/document.go:319-334 | replaces the value of one key |
| `PolicyDocument.Document.RemoveMapEntry` | internal/policy/document.go:341-352 | removes one key |
| `PolicyDocument.Document.RenameMapEntry` | internal/policy/document.go:359-373 | renames one key, or fails exactly when the new key is held |
| `PolicyDocument.Document.ApproversObject` | internal/policy/document.go:476-498 | finds or creates the autoApprovers section |
| `PolicyDocument.Document.RoutesObject` | internal/policy/document.go:503-524 | finds or creates autoApprovers.routes |
| `PolicyDocument.Document.AddAutoApproverRoute` | internal/policy/document.go:379-393 | adds a route and every section it needs; a failure leaves no half-created section |
| `PolicyDocument.Document.ReplaceAutoApproverRoute` | internal/policy/document.go:399-414 | replaces the approvers of one route |
| `PolicyDocument.Document.RemoveAutoApproverRoute` | internal/policy/document.go:420-431 | removes one route and keeps the section |
| `PolicyDocument.Document.SetAutoApproverExitNode` | internal/policy/document.go:438-455 | sets the exit node list |
| `PolicyLaws.AddEntryExactly` | internal/policy/document.go:219-242 | each outcome of an add: which check fails first, the whole tree with one more entry in its section, or the whole tree with one more section |
| `PolicyLaws.ListRefusals` | internal/policy/document.go:249-279 | the checks of a replacement and a removal in a list, in their order |
| `PolicyLaws.ListEditsExactly` | internal/policy/document.go:249-279 | the whole tree after a replacement and a removal: one value with its surroundings kept, or one entry fewer |
| `PolicyLaws.AddMapEntryExactly` | internal/policy/document.go:286-312 | each outcome of an add to a map section, with the whole tree after it |
| `PolicyLaws.MapRefusals` | internal/policy/document.go:319-373 | the checks that the three edits of a map entry share, in their order |
| `PolicyLaws.MapEditsExactly` | internal/policy/document.go:319-373 | the whole tree after a replacement, a removal and a rename; a rename to a held key is refused |
| `PolicyLaws.RouteRefusals` | internal/policy/document.go:379-431 | when each route edit refuses: the root, autoApprovers or routes is no object, or an edit that creates nothing misses one |
| `PolicyLaws.AddRouteExactly` | internal/policy/document.go:379-393 | the whole tree after a route is added to held routes; a held destination is refused |
| `PolicyLaws.RouteEditsExactly` | internal/policy/document.go:399-431 | the whole tree after a replacement and a removal of a route; a missing destination is refused |
| `PolicyLaws.FirstRouteExactly` | internal/policy/document.go:476-524 | the whole tree after an add that creates routes, or autoApprovers with routes |
| `PolicyLaws.SetExitNodeExactly` | internal/policy/document.go:438-455 | the whole tree after exitNode is set, or created, or created with its section |
| `PolicyLaws.NewNodesExactly` | internal/policy/document.go:583-690 | the bytes of each new node: entry, key with its colon, list section and map section |
| `PolicyLaws.EntryIndentsExactly` | internal/policy/document.go:615-627 | a new entry has the indent of the last one, or the indent of the key and two spaces more |
| `PolicyLaws.TopIndentExactly` | internal/policy/document.go:629-640 | a new section has the indent of the last key that starts a line, or two spaces |
| `PolicyLaws.PackedPairs` | internal/policy/document.go:34-41 | the bytes of a list and of an object with two entries, commas and spaces included |
| `PolicyEdits.EditStaysInItsSection` | internal/policy/document.go:219-455 | every edit leaves every section but its own, and the text around the document, as it was |
| `PolicyEdits.OtherSectionsStay` | internal/policy/document.go:219-455 | a section that an edit does not name keeps its members and its entries |
| `PolicyEdits.EditKeepsKeysDistinct` | internal/policy/document.go:43-62 | no edit duplicates a top-level key or a key of a map-shaped section |
| `PolicyEdits.RouteEditKeepsRoutesDistinct` | internal/policy/document.go:379-431 | no route edit duplicates a destination |
| `PolicyBytes.EditChangesOneRange` | internal/policy/document.go:34-41 | the bytes after an edit are the old bytes with one range replaced, and both ranges are named for each edit |
| `PolicyBytes.RunKeepsKeysAndSections` | internal/policy/document.go:34-62 | over every run of edits keys stay distinct and sections that no edit names stay |
| `PolicyBytes.AddEntryThenRemove` | internal/policy/document.go:219-279 | adding an entry to a held section and removing the last index gives the tree back |
| `PolicyBytes.AddMapEntryThenRemove` | internal/policy/document.go:286-352 | the same for a key |
| `PolicyBytes.AddRouteThenRemove` | internal/policy/document.go:379-431 | the same for a route |
| `PolicyBytes.RenameBackExactly` | internal/policy/document.go:359-373 | a rename and its reverse give the tree back exactly when the document wrote the key as the code writes it |
| `PolicyBytes.ReadsExactly` | internal/policy/document.go:717-725 | a text is blanks and comments exactly when a scan from its start says so |
| `PolicyBytes.IndentKeepsTheDocumentExactly` | internal/policy/document.go:717-725 | the text before a new entry is blanks and comments exactly when the copied text, read from its own start, is blanks and whole block comments |
| `PolicyBytes.WholeCommentIsCopied` | internal/policy/document.go:717-725 | a copied text that is no whitespace and does no harm |
| `PolicyBytes.CommentBreaksTheNewEntry` | internal/policy/document.go:615-627 | the exception is real: a two-line block comment before the last entry puts broken text before the new entry |
| `PolicyForm.EditKeepsTheFormExactly` | internal/policy/document.go:219-455 | every successful edit keeps each text between two tokens of the document blanks and comments exactly when each text that it copies, read from its own start, is blanks and whole block comments |
| `PolicyForm.EntryVanishesInAComment` | internal/policy/document.go:583-627 | the exception is real: an added entry whose bytes are part of a line comment of a well-formed document |
| `HostsFile.BuildManagedBlock` | internal/hostaccess/hosts.go:18-46 | the block of the records in the order of the names, for every map order |
| `HostsFile.BlockOfOneName` | internal/hostaccess/hosts.go:18-46 | the text of a block of one name, character by character: both markers, and the address, two spaces and the name on each line, IPv4 first |
| `HostsFile.LinesInOrder` | internal/hostaccess/hosts.go:35-43 | each further name adds its own lines behind those before it |
| `HostsFile.UpdateReplacesTheBlock` | internal/hostaccess/hosts.go:74-99 | an update replaces the block behind a text without markers and keeps every other byte, for every body that holds no marker |
| `HostsFile.FirstUpdateThenRemoval` | internal/hostaccess/hosts.go:93-112 | the first update adds one newline exactly when the text ends in another character, then the block, and a removal gives the text back with it |
| `HostsFile.OneBlock` | internal/hostaccess/hosts.go:74-99 | after an update there is exactly one pair of markers when the surroundings hold none |
| `HostsFile.SecondUpdateIsIdleExactly` | internal/hostaccess/hosts.go:74-112 | a repeated update changes nothing exactly when the text held a complete block or no marker |
| `HostsFile.RecordsAreClean` | internal/hostaccess/hosts.go:18-46 | no block that the daemon writes holds a marker in its body, whatever hash signs its names hold |
| `HostsFile.UpdateTwice` | internal/hostaccess/hosts.go:53-140 | a second update of the file with the same records writes nothing exactly on that condition |
| `HostsFile.StrayEndMarkerGrows` | internal/hostaccess/hosts.go:74-79 | an end marker before every begin marker makes each update append one more block |
| `HostsFile.UnclosedMarkerLosesText` | internal/hostaccess/hosts.go:74-99 | a begin marker without an end marker makes the second update delete the text behind it |
| `HostsFile.File.Update` | internal/hostaccess/hosts.go:53-140 | the file holds the updated text, a failure changes nothing, and a write happens exactly when the text changes |
| `HostRoutes.MergeRoutes` | internal/hostaccess/routes.go:728-744 | the first occurrence of each destination, in order |
| `HostRoutes.DiffRoutes` | internal/hostaccess/routes.go:306-327 | the destinations on one side only, in order |
| `HostRoutes.FilterWritable` | internal/hostaccess/routes.go:423-490 | keeps exactly the valid destinations that the probe gives no reason to skip |
| `HostRoutes.WantedExactly` | internal/hostaccess/routes.go:641-675 | the destinations of a sync are exactly the valid and writable addresses of peers, services and the route table of the namespace, each one once; an address is left out when the host answers it from another table or from a connected network, on a device that is not a vh device |
| `HostRoutes.SyncReachesTheWantedSet` | internal/hostaccess/routes.go:628-725 | after a sync the device holds every wanted destination, nothing unwanted is shown for it, and hidden, default and foreign routes stay |
| `HostRoutes.SecondSyncIsIdleExactly` | internal/hostaccess/routes.go:140-219 | a second sync removes nothing, and adds nothing exactly when the route list shows every wanted destination, for a kernel that prints destinations as they were written |
| `HostRoutes.TailnetsCommuteExactly` | internal/hostaccess/routes.go:628-725 | two tailnets reach one table in either order exactly when they have no common wanted destination, and a common one ends at the device of the later sync |
| `HostRoutes.Manager.Show` | internal/hostaccess/routes.go:140-219 | the parsed list holds each route of the device once, except in IPv4 the MagicDNS address and every destination of the infra subnet, in IPv6 ::/0 and every route of the kernel, and in both default and what is no address |
| `HostRoutes.SyncInPlainTerms` | internal/hostaccess/routes.go:140-219 | what every sync leaves alone and what a sync without failures reaches, destination by destination in literals |
| `HostRoutes.Manager.Change` | internal/hostaccess/routes.go:688-722 | for every schedule: one command for each missing and each unwanted destination, which has the synced route exactly unless its own command fails |
| `HostRoutes.Manager.EnsureRule` | internal/hostaccess/routes.go:545-571 | adds the policy rule exactly when none holds the priority and overwrites no other rule, for every schedule; it fails exactly when a command does or another table holds the priority |
| `HostRoutes.Manager.SyncHostRoutes` | internal/hostaccess/routes.go:628-725 | for every schedule: both rule steps run, a failed read of a route list changes no route, and a destination that is not wanted and belongs to another device, to the infra subnet, to MagicDNS, to the kernel or to the default route keeps its route; it fails exactly when a step does, and without a failure both rules stand, each wanted destination has its route and nothing else of the list is left |
| `HostRoutes.Manager.RemoveAllHostRoutes` | internal/hostaccess/routes.go:755-786 | for every schedule: one command for each shown route of the device in IPv4 and then in IPv6, the second family runs whatever failed in the first, and routes of other devices, of the infra subnet, of MagicDNS, of the kernel and the default route stay |
| `HostRoutes.Manager.RemoveRule` | internal/hostaccess/routes.go:575-582 | removes the daemon's rule and no rule of the operator |
| `HostRoutes.Manager.RemoveHostRouteTable` | internal/hostaccess/routes.go:603-619 | does nothing without a route table; otherwise each of its four commands runs and has its effect unless it fails itself |
| `ServiceNames.HalvedCollapsesTheSame` | internal/hostaccess/peers.go:236-261 | one pass of the replacement keeps the collapsed text |
| `ServiceNames.Collapse` | internal/hostaccess/peers.go:236-261 | the loop that replaces two hyphens by one ends with every run as one hyphen |
| `ServiceNames.LabelIsADnsLabel` | internal/hostaccess/peers.go:225-261 | every label is one DNS label of at most 63 characters, and there is one exactly when a letter or a digit stands behind the prefix |
| `ServiceNames.LabelOfLabel` | internal/hostaccess/peers.go:236-274 | the label of a label is that label |
| `NameLaws.PrefixedLabel` | internal/hostaccess/peers.go:236-261 | the prefix svc: does not show in the label |
| `NameLaws.JoinedLabel` | internal/hostaccess/peers.go:236-261 | one character between two labels, other than a letter, a digit, a hyphen or a colon, becomes one hyphen |
| `ServiceRecords.ReachableExactly` | internal/hostaccess/peers.go:206-221 | a record stays exactly when one of its entries is an address |
| `NameLaws.AddressesExactly` | internal/hostaccess/peers.go:206-221 | the addresses of a service in one family are exactly the entries of that family |
| `ServiceRecords.ParseServices` | internal/hostaccess/peers.go:190-224 | the loop over the records gives each reachable record its service, named for the first record of its label |
| `ServiceRecords.LabelIsHeldExactly` | internal/hostaccess/peers.go:179-224 | a label names a service exactly when the first record of that label has an address |
| `ServiceRecords.DroppedRecordTakesTheLabel` | internal/hostaccess/peers.go:179-224 | the exception is real: a dropped record takes the label from the service behind it |
| `ServiceRecords.ServiceNamesDiffer` | internal/hostaccess/peers.go:179-224 | no two services of a tailnet hold one name |
| `ServiceRecords.RecordNamesCollideExactly` | internal/hostaccess/peers.go:293-310 | two records share a name exactly when one tailnet id extends the other by a hyphen and the host name makes up for it |
| `ServiceRecords.TwoTailnetsOneName` | internal/hostaccess/peers.go:299-310 | the exception is real: two tailnets give one name |
| `ServiceRecords.AddServiceAliasRecords` | internal/hostaccess/peers.go:326-346 | peers keep their records, a free name goes to the first service with an address of the family, and a name of a peer without IPv6 answers for a service in IPv6 exactly when a service of that name has an IPv6 address |
| `NameLaws.AliasAddressAt` | internal/hostaccess/peers.go:326-346 | a free alias name answers with the first address of the first service that has the name and an address of the family |
| `HostRecords.ParsePeers` | internal/hostaccess/peers.go:68-102 | the loop over the nodes keeps each one with an address, under its host name in lower case with a hyphen for each space and its last address of each family |
| `HostRecords.BuildDNSRecords` | internal/hostaccess/peers.go:162-176 | the loop over the peers lets a later peer overwrite an earlier one |
| `HostRecords.PeerRecordsExactly` | internal/hostaccess/peers.go:162-176 | a name has the address of the last node that claims it |
| `NameLaws.HostNameExactly` | internal/hostaccess/peers.go:86-90 | a host name is its words in lower case with a hyphen between them |
| `NameLaws.PeerRecordAt` | internal/hostaccess/peers.go:162-176 | the record of a peer position by position: the last node of the name, with its last address of the family, under the tailnet id, a hyphen and the host name |
| `HostRecords.CollectServices` | internal/daemon/daemon.go:119-159 | the loops give one record for each reported service name, in name order, with the addresses of all its reports in order and each one once |
| `HostRecords.MergedAnswersFirst` | internal/daemon/daemon.go:119-159 | the merged record answers under the address of the first report that has one of the family |
| `NameLaws.MergeExactly` | internal/daemon/daemon.go:145-159 | a merge keeps the first list and puts each new value behind it once, in the order of the second list |
| `NameLaws.ReportAt` | internal/daemon/daemon.go:119-143 | a service that several nodes report answers with the first address of its first report that has one |
| `HostRecords.BuildServiceRecords` | internal/hostaccess/peers.go:293-310 | each named service gets its first address of each family |
| `HostRecords.ServiceRecordsExactly` | internal/hostaccess/peers.go:190-310 | from the reports to the table: a name answers with an address exactly when the least reported service of its label has it first |
| `NameTable.MergeRecords` | internal/hostaccess/hostaccess.go:405-428 | the loop over the tailnets merges their records: a peer overwrites, a service takes a free name |
| `NameTable.MergedExactly` | internal/hostaccess/hostaccess.go:405-428 | when no two tailnets share a name, the table holds every claim of their records and nothing else |
| `NameTable.ValueOfName` | internal/hostaccess/hostaccess.go:405-428 | with the records of each tailnet given, a name has the address of the last tailnet whose peers claim it, and without one that of the first tailnet whose service claims it |
| `NameLaws.TableAt` | internal/hostaccess/hostaccess.go:405-428 | the last tailnet with a peer of the name decides, and without one the first tailnet with a service of it |
| `NameTable.BuildTables` | internal/hostaccess/hostaccess.go:405-428 | the loops from the status of each tailnet to both families of the table, for the order in which the daemon meets everything |
| `NameTable.TableAddress` | internal/hostaccess/hostaccess.go:405-428 | under every order a name has the address of some peer that claims it, or without a peer one that some tailnet offers, and none exactly without both |
| `NameTable.OneTableExactly` | internal/hostaccess/hostaccess.go:405-428 | every order of the tailnets, of their peers and of their service reports gives one table exactly when, for each name, the peers that claim it agree within and across tailnets, or no peer claims it and the services that may answer for it agree |
| `NameTable.MergeOrderDoesNotShow` | internal/hostaccess/hostaccess.go:405-428 | so distinct peer names and one possible answer for each service name give one table in every order |
| `NameTable.TwoPeersOneName` | internal/hostaccess/peers.go:79-176 | the exception is real: two nodes of one tailnet with one host name give two tables |
| `NameTable.TwoReportsOneService` | internal/daemon/daemon.go:119-159 | the exception is real: one service that two nodes report with two addresses gives two tables |
| `TailnetNames.ValidateTailnetNames` | internal/config/config.go:419-473 | passes exactly when ids have a good form and differ, and each alias has a good form, is no id and differs from every other alias; with resolve_aliases each alias is a DNS label and the case of letters makes no difference; an id failure comes before every alias failure |
| `TailnetNames.ValidateIds` | internal/config/config.go:420-432 | the first loop: its failure names the first id of a bad form or a repeated one |
| `TailnetNames.ValidateAlias` | internal/config/config.go:437-466 | which failure one alias has, exactly: its form, an id, an id in another case, no DNS label, in this order |
| `NameLaws.PatternsExactly` | internal/config/config.go:22-37 | the three patterns letter by letter |
| `TailnetNames.RefNamesAtMostOne` | internal/config/config.go:475-491 | in a valid configuration a reference names at most one tailnet |
| `TailnetNames.ResolveTailnetRef` | internal/config/config.go:479-491 | finds a named tailnet exactly when there is one, and an id wins |
| `TailnetNames.MatchAliasZone` | internal/dns/alias.go:67-78 | for every map order the answer is a zone that holds the name, with the part of the name in front of the zone, or none exactly when no zone holds it |
| `TailnetNames.QueryMatchesAtMostOneZone` | internal/dns/alias.go:67-78 | in a valid configuration at most one zone holds a query name |
| `TailnetNames.MatchIsAFunction` | internal/dns/alias.go:67-78 | so every map order gives the same zone and host |
| `TailnetNames.AliasNameExactly` | internal/hostaccess/peers.go:117-127 | the alias name of a peer is every label of its MagicDNS name below the suffix, and only that |
| `TailnetNames.AliasNameAnswers` | internal/dns/alias.go:67-78 | the query for an alias name below a zone comes back as that alias name |
| `TailnetNames.WithoutTheKeyZonesCollide` | internal/config/config.go:447-470 | the case folding is needed: a configuration that is valid without the key names one zone twice |
| `VethAddresses.MaskedExactly` | internal/namespaces/ns.go:229-251 | the addresses under one mask are exactly one interval |
| `VethAddresses.VethFitsExactly` | internal/namespaces/ns.go:229-254 | the code finds a block exactly when the subnet has room for it, and no wrapped sum counts as inside |
| `VethAddresses.BlocksAreDisjoint` | internal/namespaces/ns.go:229-254 | in every accepted subnet every index has a block, inside the subnet, and two indices never share one |
| `VethAddresses.EveryIndexFitsExactly` | internal/config/config.go:281-296 | every index has a block exactly in a /22 or larger, so the bound of the configuration is safe and not tight |
| `VethAddresses.NamespacesCollideExactly` | internal/namespaces/ns.go:212-217 | the listen port is 41642 plus the hash modulo 254, and two namespaces share addresses, and a listen port, exactly when their hashes agree modulo 254 |

## Left out

- Command execution, timeouts, process start and stop, file locks: foreign calls, modelled as commands with a success or failure outcome.
- HTTP routes, clients, JSON types, YAML, secrets, the terminal and the drawing code of the web view: plumbing without a hard property.
- The parsing of `iptables -S`, `ip route`, `ss` and `tailscale status` text: reads return structured data, except the rule that a placement and a marker are read by and the filter of the route list.
- `TailnetNames.ValidateTailnetNames`: the contract says when the list is valid, that an id failure comes before an alias failure, and in `ValidateAlias` which failure one alias has; it does not pin which of several bad aliases is told first, because callers only print it.
- `AccessRules.Validate`: the contract says which rules fail by number, and it does not pin the text of each failure.
- `PublishedPorts.ValidatePublish`: the failure of each entry is pinned in `ValidateEntry`; the order of the whole list is not pinned beyond the list being empty exactly on a publishable configuration.
- `PolicyDocument.Document.Parse`: the line and column of a duplicate key are not part of the result.
- `HostRoutes.Manager.SyncHostRoutes`: the route probe is one function for the whole sync, so a probe whose answer changes because of the sync itself is not covered; the reads of table 52 and the probes stand outside the schedule, and a failed one is an answer of its own.
- `HostRoutes.Manager.Show`: the code finds the device as a substring of a line, and the model compares names; every device name of the daemon has one length. The filter that drops infra and default routes from table 52 of a namespace is not part of this model: what it leaves is an input.
- `HostRoutes.SecondSyncIsIdleExactly`: the kernel is taken to print each destination as the daemon wrote it. A wanted destination in another form, such as `10.0.0.1/32`, is printed in the canonical one and would not be idle.
- `Reconciler.ConvergesInTwoTicks`: one tick is atomic with respect to requests of an operator, every started daemon runs by the next tick, and the tailnet is neither paused nor errored nor unprotected and none of its own actions fails or waits; with those the bound holds from any state and whatever happens to other tailnets.
- `Ipv6Path.Run`: nothing but the daemon changes the chains, the jumps and the devices that it opened between two ticks; the kernel key that opens every device stays 0 over the run and names of devices hold no NUL and no newline; these last two are what the code reads before it starts the protocol.
- `SplitDns.Manager.SyncSplit`: names are normalised before the two passes instead of inside them, and the drop lines for the log, the report text of a conflict and the routes of the domains are not modelled. A split domain equal to the tailnet's own MagicDNS suffix is a conflict with itself in the model, as it is in the code.
- `HostsFile.UpdateTwice`: the names and the addresses of the records hold no space, which the peer parser sees to; a hash sign is allowed.
- `StagedRules.AccessState.Rebase`: a rebase begins a new edit, so what it deleted counts as touched from then on.
- `HostsFile.File.Update`: file permissions and the temporary file of the atomic rename are not modelled; a failed rename leaves the old text.
- `SplitDns.Manager`, `TailnetNames`: letters fold case and blanks trim on ASCII text only, which is what a DNS name holds.
- Policy documents are trees of values, so two handles on one subtree (one kept across edits) are not captured; the code keeps none across calls.
- `ServiceRecords.ParseServices`: the final sort by name is not modelled; it orders the services and changes none of them. The label function is a parameter there, and `ServiceNames` gives it.
- `Ipv6Path.Ipv6.Uninstall`: only the IPv6 steps; the namespaces and the IPv4 chains go in steps of their own.
- The policy readers, the peer records of an alias zone (the control server gives each peer its own MagicDNS name), `ServiceHostNames`, and the listener set of the DNS forwarder: they would add easier members beside the ones above.
- `HostRecords.CollectServices`: the ports of a service, and the JSON records of a capability map; a node holds the reports that its own filter keeps.
- `PolicyForm.EditKeepsTheFormExactly`: the parser is not part of this model, so the form is that of the tree; a literal and a key count as formed.
- The event ring, the host file monitor and the resolver daemon: left out for the same reason.
- Two namespaces whose hashes agree modulo 254 share addresses; the model states this and does not bound its likelihood.
