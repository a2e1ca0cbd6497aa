# Verified model of the registration scanner's policy engine

The bot scans Matrix homeservers for open registration and keeps a policy room's
server bans in step with what it finds. This project models the parts of it that
carry state, and proves what they guarantee about each other over whole runs:

- **Names.** The portless form of a server name, the two IP-literal tests, and the
  name parser (`ServerName.dfy`, on the string functions of `Text.dfy`), and the
  grammar of the names that are accepted (`NameGrammar.dfy`).
- **Suffix list.** The set-based public suffix lookup and its eTLD+1 buckets, the
  list being filled line by line, the holder that swaps lists (`PublicSuffix.dfy`),
  and how a list's text is read (`SuffixText.dfy`).
- **Scan store.** The leased queue and the one row per target (`ScanStore.dfy`),
  the row against the whole history it summarises (`ScanHistory.dfy`), and the
  queue protocol over runs (`QueueLease.dfy`).
- **Governance.** What a configuration event does (`AutoConfig.dfy`), what its words
  mean for what the bot then does (`EventMeaning.dfy`), and the suffix-list floor
  over runs of events, rule loads, adoptions and re-evaluations (`FloorSafety.dfy`).
- **Policy writes.** Glob compilation (`Glob.dfy`), what the two write lanes decide
  (`PolicyRules.dfy`), the object that does it (`PolicyManager.dfy`), both lanes
  interleaved at their awaits (`PolicyRuns.dfy`), the ban cap over those runs
  (`CapRuns.dfy`), scans taken whole (`WholeScans.dfy`) and as such runs
  (`ScanRuns.dfy`), the local fold against the room (`FoldConvergence.dfy`), and the
  lanes as runs of that (`RunsFold.dfy`).
- **Scheduling.** The rescan meter (`RescanMeter.dfy`), what a tick launches
  (`Launching.dfy`), the in-flight ceiling under interleaving (`Admission.dfy`),
  and the object that runs the ticks (`Bot.dfy`).
- **SRV order.** Weighted selection without replacement (`SrvOrder.dfy`), after the
  "Priority" and "Weight" fields of RFC 2782, "The format of the SRV RR".

Objects that the program updates in place are classes here (`DB`, `PolicyManager`,
`PublicSuffixList`, `PslHolder`, `Bot`); each method is tied to a function of the
old state, and what the program promises is proved about those functions. Code that
interleaves at `await` is modelled as steps: a run is any sequence of them.

Timestamps are integers, rates and credit are reals. The random draws of the SRV
pick, the library parsers (IPv6 text, suffix-list stamps, IDNA), the digest of the
state key, the clock, the room's answers and the scan results are inputs. The digest
is assumed injective where keys are compared, and accepted IPv6 text to hold a colon
and no newline.

## Where the code and its documentation differ

- `strip_port` and `is_ip_literal` accept a host that ends in a newline in front of
  a port, because `$` also matches before a final newline. Stripping is idempotent
  and keeps the literal test exactly outside that family.
- `is_ip_literal` says it agrees with `parse_name`; on dotted quads with a
  leading-zero octet it does not. That is the only difference on valid names.
- `_glob_to_regex` keeps a glob's meaning exactly on newline-free entities.
- A list or an object as `default_action`, or as the decision of a known status,
  makes `_apply_auto_config` raise after it has stored the recommendation and the
  ban reason, rather than halt. Those events are exactly the ones whose outcome
  depends on what was stored before.
- The comment at `bot.py:1087-1089` bounds concurrency by `_max_inflight`. With
  ticks interleaved that holds exactly when one of the two batch limits is zero;
  otherwise the ceiling can be passed by the larger of them, and by no more.
- The cap on bans per eTLD+1 is checked against the local fold. A late echo of this
  bot's own earlier ban can put a removed rule back into the fold, and the bucket
  over its cap, with one write at a time. The exact condition on what is outstanding
  is given.
- `_weighted_pick_index` says a weightless record is unreachable while weight remains
  and that the last return covers the draw of the whole total. With a weightless last
  record that draw picks it. That is the only way.
- `public_suffix` says it follows the published algorithm. It honours a `*` label only
  in front of a base, where the published rule lets it stand anywhere; and it gives
  an unknown last label no suffix, as its own documentation adds.
- `status_since` is `existing or ts`: a run of a status that starts at timestamp zero
  loses its start at the next scan.
- `etld1` is idempotent exactly when the label left of the suffix is not empty, which
  it never is for a valid server name.
- `consider_stale_cleanup` says it returns True only when a removal was written; it
  returns True when a removal was attempted, and the room may have refused it.

## Model

| member | source | states |
|---|---|---|
| ServerName.ParsersAgree | bot/csreg_scanner/util.py:134-159 | every valid name parses, its portless form is the parser's host as written, and that form is itself valid |
| ServerName.LiteralTestsAgree | bot/csreg_scanner/util.py:67-88 | on valid names the two IP-literal tests agree exactly when the host is not a dotted quad with a leading-zero octet |
| ServerName.StripPortIdempotent | bot/csreg_scanner/util.py:19-38 | on valid names stripping twice is stripping once, exactly when no newline sits before the port |
| ServerName.LiteralSurvivesStripping | bot/csreg_scanner/util.py:61-88 | whether a valid name is an IP literal does not depend on its port, exactly outside the quads that end in a newline |
| ServerName.LeadingZeroWitness | bot/csreg_scanner/resolver.py:200-205 | `01.2.3.4` is valid and in the family on which the literal tests differ |
| ServerName.NewlineWitness | bot/csreg_scanner/util.py:97-98 | a valid name with a newline before its port exists |
| ServerName.NewlineQuadWitness | bot/csreg_scanner/util.py:61-88 | `1.2.3.4\n:8` is a valid name and no IP literal, and its portless form is one |
| NameGrammar.AcceptedExactly | bot/csreg_scanner/util.py:134-159 | a text is a valid name exactly when, outer white space apart, it is at most 230 characters of a host (labels with dots between them, or an address in brackets) and perhaps a colon and a port from 1 to 65535 |
| NameGrammar.ReadExactly | bot/csreg_scanner/resolver.py:174-197 | from such a name the parsers read exactly that host, with and without its brackets, that port, and whether it is an address |
| NameGrammar.Ipv4Exactly | bot/csreg_scanner/util.py:101-105 | the dotted quads that count as addresses are the decimal texts of four bytes |
| PublicSuffix.LookupEqualsAlgorithm | bot/csreg_scanner/psl.py:196-228 | for a list built from rules whose stars lead, the set lookup gives the published algorithm's answer (stars standing anywhere) and no other value satisfies it: exceptions first and one label shorter, then the longest match, then the last label if known |
| PublicSuffix.LookupHonoursLeadingStars | bot/csreg_scanner/psl.py:196-228 | for any rule set the lookup is that algorithm with stars honoured only in front of a base |
| PublicSuffix.MatchIsPublishedExactly | bot/csreg_scanner/psl.py:217-219 | a rule matches the lookup's way just as published, on every host, exactly when its stars lead |
| PublicSuffix.LookupIsPublishedExactly | bot/csreg_scanner/psl.py:196-228 | without exception rules the lookup is the published algorithm on every host, exactly when the stars of all rules lead |
| PublicSuffix.MiddleStarWitness | bot/csreg_scanner/psl.py:217-219 | under the rule `a.*.b` the published algorithm and the lookup differ |
| PublicSuffix.ExceptionHidesTheStar | bot/csreg_scanner/psl.py:208-211 | an exception that always prevails can hide a misplaced star, so the condition on the stars alone is exact only without exceptions |
| PublicSuffix.FinitelyManyHostsDecide | bot/csreg_scanner/psl.py:196-228 | for any list, exceptions and stars anywhere included, the lookup is the published algorithm on every host, exactly when it is on the finitely many hosts of no more labels than the longest rule has, each empty, of some rule, or one fixed label that no rule names |
| PublicSuffix.SomeCover | bot/csreg_scanner/psl.py:196-228 | every rule set has such a label and such a length, so the previous result is about every list |
| PublicSuffix.PublicSuffixList.Load | bot/csreg_scanner/psl.py:151-167 | reading a text line by line leaves the four sets holding exactly the rules of the text |
| SuffixText.RulesExactly | bot/csreg_scanner/psl.py:151-167 | the rules of an ASCII list are exactly the first words of its lines, comments apart, in lower case |
| SuffixText.RightLabelExactly | bot/csreg_scanner/psl.py:167 | the label a rule makes known is its last one, marks in front apart |
| SuffixText.NormalisedExactly | bot/csreg_scanner/psl.py:242 | a host is looked up without its outer dots, in lower case, and otherwise as it is |
| PublicSuffix.BucketIsTail | bot/csreg_scanner/psl.py:233-251 | a bucket is a label tail of the normalised host, exactly one label longer than its suffix unless the host is the suffix or unmatched |
| PublicSuffix.BucketIdempotent | bot/csreg_scanner/psl.py:233-251 | the bucket of a bucket is itself, exactly when the label left of the suffix is not empty |
| PublicSuffix.ValidHostBucketIdempotent | bot/csreg_scanner/psl.py:233-251 | for every valid DNS name the bucket of the bucket is the bucket |
| PublicSuffix.EmptyLabelWitness | bot/csreg_scanner/psl.py:233-251 | a host in the family on which bucketing twice differs exists |
| PublicSuffix.PslHolder.Adopt | bot/csreg_scanner/psl.py:360-377 | a candidate replaces the list in use exactly when it is versioned and newer than a versioned one |
| Glob.GlobToRegex | bot/csreg_scanner/policy.py:185-200 | the loop compiles to one atom per pattern character between the anchors |
| Glob.CompilationKeepsMeaning | bot/csreg_scanner/policy.py:185-200 | on newline-free entities the compiled regex matches exactly what can be cut into pieces fitting the pattern |
| Glob.MeaningKeptExactly | bot/csreg_scanner/policy.py:185-200 | regex and glob agree on every pattern exactly when the entity has no newline |
| Glob.RegexMeansExactly | bot/csreg_scanner/policy.py:185-200 | on any entity the regex accepts exactly what can be cut to fit the pattern with every wildcard's piece on one line, a newline at the very end apart |
| SrvOrder.WeightedPickIndex | bot/csreg_scanner/resolver.py:495-516 | the loop picks the first record whose cumulative weight exceeds the draw, an equal one among the weightless, the last one when the draw is the total |
| SrvOrder.PickedIffInSegment | bot/csreg_scanner/resolver.py:495-516 | for draws below the total, a record is picked exactly when the draw lies in its cumulative-weight segment |
| SrvOrder.TicketsEqualWeight | bot/csreg_scanner/resolver.py:495-516 | of the whole-number draws below the total, exactly its weight in number pick a record |
| SrvOrder.BandIsPermuted | bot/csreg_scanner/resolver.py:472-492 | picking without replacement orders a band as a permutation of it |
| SrvOrder.OrderedByTickets | bot/csreg_scanner/resolver.py:486-516 | a band's order begins with the record whose segment the draw falls in, or in a weightless band with the one of the drawn number, and goes on so without it |
| SrvOrder.WeightlessPickedExactly | bot/csreg_scanner/resolver.py:495-516 | while weight remains, a weightless record is picked exactly when the draw is the whole total and the last record is weightless |
| SrvOrder.BandPositiveFirstExactly | bot/csreg_scanner/resolver.py:495-516 | for all draws the library may make, a band comes out weighted before weightless exactly when no pick meets that case |
| SrvOrder.WholeTotalWitness | bot/csreg_scanner/resolver.py:498-504 | a weighted and a weightless record, and a draw the library may make, after which the weightless one is first |
| SrvOrder.BandPositiveFirst | bot/csreg_scanner/resolver.py:495-516 | with draws below the total no weightless record of a band comes before a weighted one |
| SrvOrder.BandsAreAnOrder | bot/csreg_scanner/resolver.py:472-492 | for all draws the library may make, the bands joined in ascending priority are a permutation of the records, sorted by priority; within one priority weighted come before weightless exactly when no band loses weight to a draw of its whole total |
| SrvOrder.OrderSrv | bot/csreg_scanner/resolver.py:472-492 | the grouping and draining loops return that order, weighted first under the same exact condition |
| ScanStore.DB.Enqueue | bot/csreg_scanner/db.py:277-365 | chunk by chunk, exactly the unqueued and unscanned targets join unleased; queued ones keep their lease |
| ScanStore.DB.Pending | bot/csreg_scanner/db.py:369-419 | claims the first eligible targets in text order, up to the limit, and leases exactly those |
| ScanStore.DB.RecordScan | bot/csreg_scanner/db.py:538-648 | upserts the row, deletes the queue entry, and reports changes of status and of version |
| ScanStore.DB.StatusesForDomain | bot/csreg_scanner/db.py:695-708 | returns exactly the stored targets of the domain with their statuses |
| ScanStore.DB.MostOverdue | bot/csreg_scanner/db.py:424-486 | fails exactly on an unusable staleness map; otherwise lists distinct targets so that of any two listed, and of one listed and one left out, the first has waited at least as large a part of its own staleness target (its status's, else that of `unknown`, else 86400 seconds) |
| ScanStore.SafeKeyExactly | bot/csreg_scanner/db.py:447-449 | a status key is usable exactly when, its underscores taken out, letters and digits and nothing else are left |
| ScanStore.DB.ScanTotals | bot/csreg_scanner/db.py:849-878 | returns the number of rows, the clamped difference and the sum of their scan counts |
| ScanHistory.RowRefinesHistory | bot/csreg_scanner/db.py:538-648 | after any history without a zero stamp the row is its summary: count, trailing failures, last success, start of the trailing run of the stored status, and the triple of the last authoritative probe, nulls included |
| ScanHistory.SinceIsTheStartExactly | bot/csreg_scanner/db.py:568-573 | whatever the stamps, `status_since` is the start of the trailing run exactly when the run does not start at stamp zero with a non-zero stamp after it |
| ScanHistory.ClockZeroLosesTheStart | bot/csreg_scanner/db.py:573 | a two-scan history on which `status_since` is not the start of the run |
| ScanHistory.StatusHeldSince | bot/csreg_scanner/db.py:568-573 | every scan later than the stored `status_since` left the status that is still stored |
| ScanHistory.TableRefinesLog | bot/csreg_scanner/db.py:489-648 | after any log of scans of any targets, a target has a row exactly when it was scanned, and the row summarises its own scans |
| ScanHistory.ReportTellsTheChange | bot/csreg_scanner/db.py:560-592 | a scan is reported as a change exactly when it is the target's first or moves the status its history left, and as a version change exactly when an authoritative probe replaces the stored pair by another that is not empty |
| ScanHistory.TotalsCountTheRun | bot/csreg_scanner/db.py:849-878 | after any log the totals are the distinct targets and all the scans, and the clamp at zero never acts |
| QueueLease.TablesDisjoint | bot/csreg_scanner/db.py:602-641 | in every reachable store no target is both queued and scanned |
| QueueLease.NeverClaimedOnceRecorded | bot/csreg_scanner/db.py:369-419 | once a target has had a terminal write no later claim hands it out |
| QueueLease.LeaseHolds | bot/csreg_scanner/db.py:382-419 | a claimed target is scanned or still leased at least as long as the claim said, whatever is enqueued or claimed meanwhile |
| QueueLease.ClaimsAreSeparated | bot/csreg_scanner/db.py:382-419 | two claims of one target are more than the first one's lease apart |
| QueueLease.ClaimsWhatWaits | bot/csreg_scanner/db.py:382-419 | in every run a claim hands out only targets that were enqueued, had no terminal write, and have no claim that lasts until now; what it leaves waiting comes after all of it in text order, and then it is as long as its limit |
| QueueLease.RoomyClaimTakesAll | bot/csreg_scanner/db.py:382-419 | a claim with room for the whole queue hands out exactly the targets that wait so |
| QueueLease.TotalsOverRuns | bot/csreg_scanner/db.py:849-878 | the totals of every reachable store are the distinct targets, the repeats and all the terminal writes of the run |
| AutoConfig.NoMemoryExactly | bot/csreg_scanner/policy.py:521-837 | an event leads to one outcome from all earlier states, exactly when it does not make the program raise |
| AutoConfig.RaisesWitness | bot/csreg_scanner/policy.py:621-649 | an event with a list for its default action makes the program raise, and so does one with an object for a known status |
| AutoConfig.LastEventDecides | bot/csreg_scanner/policy.py:521-837 | after any run of events whose last does not make the program raise, an unhalted configuration is the last event's alone, given own version and active list |
| AutoConfig.NoLeakage | bot/csreg_scanner/policy.py:113-129 | events that agree on the declared version and its active keys have the same effect, whatever other keys they carry |
| AutoConfig.RelabelledV1 | bot/csreg_scanner/policy.py:507-518 | a first-version event without the second version's keys has the same effect relabelled |
| EventMeaning.LetThroughExactly | bot/csreg_scanner/policy.py:521-617 | an event is let through exactly when it declares version 1 or 2, carries a non-empty text as recommendation, and, declaring version 2, sets no bot floor this bot does not clear |
| EventMeaning.OlderIsRankedLower | bot/csreg_scanner/policy.py:143-180 | one bot version is older than another exactly when its three numbers, as digits of one number, are less |
| EventMeaning.VersionExactly | bot/csreg_scanner/policy.py:143-180 | a version is read exactly from three runs of digits with dots between them, outer white space apart |
| EventMeaning.VersionReadsBack | bot/csreg_scanner/policy.py:143-180 | a version written in decimal, white space around it, reads back as itself |
| EventMeaning.RaisesExactly | bot/csreg_scanner/policy.py:621-649 | an event that is let through makes the program raise exactly when its default action, or what it gives a known status, is a list or an object |
| EventMeaning.DecidesAsAsked | bot/csreg_scanner/policy.py:621-649 | after an event is applied a status decides `ban` exactly when the event says "ban" for it, by its own entry if it is a known status that has one and by the default action otherwise; likewise `unban`; and all else is `hold` |
| EventMeaning.WritesAsAsked | bot/csreg_scanner/policy.py:604-690 | bans then carry the event's recommendation, and its reason where that is a non-empty text; literals are written exactly when it says true |
| EventMeaning.HoldsAsAsked | bot/csreg_scanner/policy.py:651-755 | the held domains are exactly the portless forms of the valid names it lists, and those who clean up exactly the user ids it lists in a second-version event |
| EventMeaning.NumbersAsAsked | bot/csreg_scanner/policy.py:712-827 | the age, the cap and the list floor are exactly the positive whole numbers, and the readable stamp, that a second-version event sets |
| EventMeaning.HaltsAsAsked | bot/csreg_scanner/policy.py:803-837 | it halts the configuration exactly when it caps bans with an unreadable list floor, and otherwise the list halt is exactly that it caps bans and the list in use is missing or below its floor |
| EventMeaning.HalfWay | bot/csreg_scanner/policy.py:604-649 | an event that makes the program raise leaves its recommendation, its reason and, where that can be read, its default action, and nothing else |
| EventMeaning.CleansUpAsAsked | bot/csreg_scanner/policy.py:1071-1150 | the cleanup lane under an event removes a live rule exactly when the event sets an age, names this bot and does not hold the domain, the status is `unknown` and has been for that age, nothing is halted, no sibling decides `ban`, and the write gets through |
| FloorSafety.SwapKeepsFloorsExactly | bot/csreg_scanner/psl.py:360-377 | swapping lists keeps every met floor met, exactly when the new list is no older: what the floor needs of monotone adoption |
| FloorSafety.UnhaltedMeetsTheFloor | bot/csreg_scanner/policy.py:371-413 | in every reachable state an unhalted bot with a cap has an active list, and one not below the minimum when one is set |
| FloorSafety.FloorHaltIsExact | bot/csreg_scanner/policy.py:371-413 | once no adoption awaits its re-evaluation, a configured bot is halted by the list exactly when it caps bans and the list is missing, unversioned where a minimum is set, or below it |
| FloorSafety.ListNeverGoesBack | bot/csreg_scanner/psl.py:322-377 | over any run the list in use never disappears and never gets older |
| FloorSafety.ListIsTheNewest | bot/csreg_scanner/psl.py:360-377 | over any run the list in use is the first one offered of the newest version, when that is newer than the list the run began with, and that one otherwise |
| FloorSafety.RuleHaltIsIndependent | bot/csreg_scanner/policy.py:326-341 | the rule-fold halt is engaged exactly when the last rule read failed or none was made, whatever configuration events and lists arrive |
| PolicyRules.KeyInjective | bot/csreg_scanner/policy.py:950-952 | under one recommendation different entities have different state keys |
| PolicyRules.CoveredByGlobs | bot/csreg_scanner/policy.py:1152-1167 | a newline-free entity is covered exactly when some rule's entity has a `*` or `?` and matches as a glob, whatever it recommends |
| PolicyRules.CapRefusesExactly | bot/csreg_scanner/policy.py:1169-1207 | the cap refuses a ban exactly when as many rules as it says name a host of the same bucket under the recommendation in force: globs, literals, removed rules and other recommendations leave it alone |
| PolicyRules.FoldedExactly | bot/csreg_scanner/policy.py:886-896 | a read holds a key's rule exactly as the last server rule of that key in the room's state has it |
| PolicyRules.RetriesExactly | bot/csreg_scanner/policy.py:1276-1302 | an attempt accepted after nothing but rate limits gets through exactly when there were at most five |
| PolicyRules.GuardSeesSiblings | bot/csreg_scanner/policy.py:1237-1248 | the guard over the store's rows finds a ban exactly when a stored target of the domain decides `ban` |
| PolicyManager.PolicyManager.ReevaluatePslFloor | bot/csreg_scanner/policy.py:371-413 | the early returns amount to the floor predicate |
| PolicyManager.PolicyManager.ApplyAutoConfig | bot/csreg_scanner/policy.py:521-837 | the gates and field-by-field stores have exactly the effect `AutoConfig` reasons about, halts and raises included, and are the configuration step of `FloorSafety` |
| PolicyManager.PolicyManager.CleanDecisions | bot/csreg_scanner/policy.py:629-649 | the loop keeps the known statuses with unknown actions as `hold`, and raises exactly when a known status has a list or an object |
| PolicyManager.PolicyManager.LoadRules | bot/csreg_scanner/policy.py:862-897 | a read swaps in the room's server rules, the last of a key prevailing; a failed read keeps the fold and halts, and is the read step of `FloorSafety` |
| PolicyManager.PolicyManager.CoveringGlob | bot/csreg_scanner/policy.py:1152-1167 | the search returns a pattern exactly when some live glob rule covers, and then one that does |
| PolicyManager.PolicyManager.Etld1BanCount | bot/csreg_scanner/policy.py:1169-1207 | the loop counts exactly the live, exact, non-literal rules under the recommendation that fall in the entity's bucket |
| PolicyManager.PolicyManager.Etld1sAtCap | bot/csreg_scanner/policy.py:1210-1235 | the tally gives the number of buckets whose own ban count is at or above the cap |
| PolicyManager.PolicyManager.Write | bot/csreg_scanner/policy.py:1250-1316 | the fold changes exactly when an attempt is accepted after rate limits alone and within the retries; the first attempt of a send keeps the throttle distance from the end of the send before, a failed one too |
| PolicyManager.PolicyManager.Reconcile | bot/csreg_scanner/policy.py:954-1067 | one call carries out the plan `PolicyRules` makes, past all guards |
| PolicyManager.PolicyManager.ConsiderStaleCleanup | bot/csreg_scanner/policy.py:1081-1150 | one call carries out the cleanup plan; it reports whether a removal was attempted, and after a reported one the rule is gone exactly when the write got through |
| PolicyRules.ReportedSweepExactly | bot/csreg_scanner/policy.py:1081-1086 | of every plan that is reported as a removal: the rule was live, and is gone exactly when the write got through |
| PolicyRules.RefusedSweepWitness | bot/csreg_scanner/policy.py:1143-1150 | a removal that is reported and refused by the room, its rule still live |
| PolicyRuns.UnsplitLane | bot/csreg_scanner/policy.py:1055-1067 | a lane's split steps, run without interruption, do what the policy object does in one call |
| ScanRuns.ScanIsARun | bot/csreg_scanner/bot.py:1142-1288 | a whole scan, as `WholeScans` takes it, is one run of the split steps with nothing in between: the record, then either lane with its guard read and its write |
| CapRuns.LoadIsExact | bot/csreg_scanner/policy.py:941-946 | whatever is delivered and gets through, a bucket stays within a bound until something new is added to it, exactly when what it holds or has pending is within the bound at every point of the outstanding echoes |
| CapRuns.CapHoldsExactly | bot/csreg_scanner/policy.py:1000-1054 | over any run, echoes and other writers included, a bound the load is within at the start holds in every continuation that adds nothing, from every point of the run, exactly when every step that adds to the bucket leaves the load within the bound at every point of the outstanding echoes |
| CapRuns.CapBound | bot/csreg_scanner/policy.py:1000-1054 | over every run with at most `k` checked bans awaiting their write, whatever is outstanding and whoever else writes: what a bucket holds or has pending stays within the larger of its start and `cap - 1 + k`, exactly when every delivery that puts something new into it finds it below that; and then so does its count at every point |
| CapRuns.SeeingChecksKeepBound | bot/csreg_scanner/policy.py:1000-1054 | where checks pass only when no outstanding echo would add to the bucket, and others add nothing, that bound also holds in every continuation that adds nothing |
| CapRuns.LateEchoPassesACapOfOne | bot/csreg_scanner/policy.py:941-946 | one lane at a time, a ban, its removal and a neighbour's ban; then the first ban's echo arrives, and a cap of one counts two |
| CapRuns.CapOvershoots | bot/csreg_scanner/policy.py:1000-1054 | two checks that pass before either write take a bucket one past the cap |
| CapRuns.TwoPassACapOfOne | bot/csreg_scanner/policy.py:1000-1054 | any two countable domains of one bucket, checked before either write, are both banned under a cap of one |
| PolicyRuns.RemovalFollowsGuard | bot/csreg_scanner/policy.py:1055-1067 | whenever this bot takes a live rule out of the room or the fold, the removing task had read the statuses of that rule's domain, found no ban, and had only the removal ahead of it since |
| PolicyRuns.OvertakingUnpinsExactly | bot/csreg_scanner/policy.py:1237-1248 | a domain without a ban at one step has one at a later step, so at the write after the guard read, exactly when a scan of one of its targets was recorded as such in between with no later scan of that target since |
| PolicyRuns.SplitPinningFails | bot/csreg_scanner/policy.py:1237-1248 | a sibling recorded between guard read and write is not seen: the rule leaves the room while a stored target decides `ban` |
| PolicyRuns.RemovedUnderABan | bot/csreg_scanner/policy.py:1237-1248 | that happens for every domain: a rule removed for one target just after another was recorded open |
| WholeScans.ScanSpares | bot/csreg_scanner/bot.py:1142-1288 | a whole scan, both lanes included, keeps a domain's rule while the store it leaves has a sibling that decides `ban` |
| WholeScans.ScanDecidesExactly | bot/csreg_scanner/policy.py:954-1150 | what one scan does to its domain's rule, both ways and both lanes together: a dead rule comes to life, with the configured content, exactly when the scan acts, decides `ban`, is past every guard and gets through; a live one goes exactly when the status decides `unban` and the write gets through, or it has been `unknown` for the age set and this bot is named to clean up, and no stored sibling decides `ban` |
| WholeScans.ScanTouchesOwnRule | bot/csreg_scanner/policy.py:950-952 | a scan changes no rule but that of its own portless domain |
| WholeScans.RemovalIsAuthorised | bot/csreg_scanner/policy.py:1071-1079 | a scan whose status does not decide `unban` takes a rule away only if the status is `unknown`, an age is set, and this bot is on the list of those that clean up |
| WholeScans.ReconcileSettles | bot/csreg_scanner/policy.py:996-1067 | reconciling the same result again after a write that got through changes nothing more |
| WholeScans.BanPinning | bot/csreg_scanner/policy.py:1128-1143 | in every run from the empty store, under one recommendation, no scan takes a domain's rule away while a stored target of it, on any port, decides `ban` |
| WholeScans.StaysBanned | bot/csreg_scanner/policy.py:1055-1067 | a banned domain stays banned as long as some stored target of it decides `ban` after every scan and the room does not drop the rule |
| WholeScans.CleanupIsSound | bot/csreg_scanner/policy.py:1114-1150 | if a scan's cleanup removes a rule, every scan of that target within the last `stale_max_age` seconds left its stored status `unknown` |
| FoldConvergence.FoldConvergesExactly | bot/csreg_scanner/policy.py:1250-1316 | whoever writes, with or without the lock: the fold holds the room's value of a key at every point with no echo of it outstanding, exactly when no step updates the fold after a landed write that the room has moved on from, its echoes all delivered |
| FoldConvergence.SoleWriterIsNeverStale | bot/csreg_scanner/policy.py:1250-1316 | under the lock, of a key this bot alone writes, no run has such a step |
| FoldConvergence.FoldConverges | bot/csreg_scanner/policy.py:1250-1316 | in any interleaving, of a key this bot alone writes the fold holds the room's value whenever no echo of the key is outstanding |
| RunsFold.RunIsSeen | bot/csreg_scanner/policy.py:1250-1316 | every run of both lanes is, for room, fold and echoes, a locked run of the writes above |
| RunsFold.LanesConverge | bot/csreg_scanner/policy.py:941-946 | so in any interleaving of the lanes the fold holds the room's rule of a key this bot alone writes whenever no echo of it is outstanding |
| FoldConvergence.DrainedFoldIsTheRoom | bot/csreg_scanner/policy.py:941-946 | wherever a run stops, delivering what is outstanding makes the fold of the key the room's |
| FoldConvergence.DeliveryKeepsDestiny | bot/csreg_scanner/policy.py:941-946 | delivering an echo never changes the value the fold ends with once all are delivered |
| FoldConvergence.UnlockedUpdateDiverges | bot/csreg_scanner/policy.py:1313-1316 | with the fold update outside the write lock, a run ends quiet with fold and room different |
| FoldConvergence.ForeignWriterDiverges | bot/csreg_scanner/policy.py:1313-1316 | with a second writer of the key, a run ends quiet with fold and room different |
| RescanMeter.DemandIsPerRow | bot/csreg_scanner/bot.py:1304-1312 | the demand summed over status buckets is the sum over the rows of one scan per staleness target |
| RescanMeter.LaunchedWithinDemand | bot/csreg_scanner/bot.py:1045-1075 | from zero, credit stays in its bounds and launches never exceed the accrued demand |
| RescanMeter.WindowBound | bot/csreg_scanner/bot.py:1045-1075 | no window of ticks launches more than the limit and the window's own demand |
| RescanMeter.KeepsUp | bot/csreg_scanner/bot.py:1045-1075 | with nothing clamped, no slot short and rows enough, launches are within one of the accrued demand |
| RescanMeter.CreditIsLeast | bot/csreg_scanner/bot.py:1045-1075 | over any run the credit is exactly the least of the start plus all that accrued less all launches, and of, for each tick, the limit less its launches plus what accrued less what was launched since: overflow is all that is lost |
| RescanMeter.LaunchesExactly | bot/csreg_scanner/bot.py:1045-1075 | with slots and rows enough, a tick of any run from zero launches exactly the least of the limit and the whole part of what was left plus what accrued |
| RescanMeter.BusyRunIsFull | bot/csreg_scanner/bot.py:1045-1075 | so when every tick accrues at least the limit, every tick launches the limit |
| Launching.OverFetchLosesNothing | bot/csreg_scanner/bot.py:1057-1075 | with the in-flight set unchanged since the fetch, a tick launches `take` targets or all that are not in flight, and none left behind outranks one launched |
| Launching.NoStarvation | bot/csreg_scanner/bot.py:1035-1075 | a scanned target not already in flight, of a status no other has a shorter staleness target than, so any target when all share one, is launched within as many ticks as there are targets scanned no later than it, whatever else is in flight |
| Admission.NoTargetRunsTwice | bot/csreg_scanner/bot.py:1096-1108 | in every interleaving of tick halves and completions each registered target has exactly one task, and no other has any |
| Admission.InterleavedBound | bot/csreg_scanner/bot.py:1011-1028 | in-flight and both pending takes never exceed the ceiling and the larger batch limit |
| Admission.InterleavedBoundIsReachedExactly | bot/csreg_scanner/bot.py:1045-1075 | some interleaving has that many in flight exactly when both batch limits are at least one |
| Admission.CeilingHoldsExactly | bot/csreg_scanner/bot.py:1087-1089 | the ceiling, the two batch limits together and at least one, bounds the in-flight scans in every interleaving exactly when one of them is zero |
| Admission.UninterruptedBound | bot/csreg_scanner/bot.py:240-244 | while no tick reads its slots during the other's await, they never exceed the ceiling |
| Bot.Bot.LaunchUpTo | bot/csreg_scanner/bot.py:1065-1070 | the launch loop launches exactly the list `Launching` reasons about |
| Bot.Bot.ScanTick | bot/csreg_scanner/bot.py:1011-1024 | a scan tick claims no more than the free slots, launches the claimed, keeps the ceiling, and is the read and the launch of `Admission` |
| Bot.Bot.RescanRead | bot/csreg_scanner/bot.py:1045-1054 | the first half keeps credit in its bounds, takes no more than credit and free slots allow, and is the read of `Admission` |
| Bot.Bot.RescanLaunch | bot/csreg_scanner/bot.py:1057-1075 | the second half launches as many as there are up to the take, of those not in flight the ones that have waited the largest part of their staleness target, pays for exactly those, and is the launch of `Admission` |
| Bot.Bot.RescanTick | bot/csreg_scanner/bot.py:1032-1075 | a whole rescan tick launches exactly as many as the batch limit, the credit left plus rate times interval, the ceiling and the targets not in flight leave room for, the most overdue first, and keeps the rest of the credit up to the limit |
| Bot.Bot.ScanOne | bot/csreg_scanner/bot.py:1142-1288 | store and policy together end where `WholeScans` says one scan takes them |
| Bot.Bot.PslRefreshOnce | bot/csreg_scanner/bot.py:605-647 | a refresh is the adoption step and the re-evaluation step of `FloorSafety`, or nothing |

## Left out

- CapRuns.CapBound: takes one configuration and one suffix list for the whole run.
- PublicSuffix.LookupEqualsAlgorithm: with exception rules the condition on stars is sufficient, and not necessary; the exact condition for such lists is a finite set of hosts (`FinitelyManyHostsDecide`), not a form of the rules; the published default rule for unknown last labels is replaced by the source's own.
- FoldConvergence.FoldConverges: is about keys this bot alone writes (`FoldConvergesExactly` covers the others); the whole-room reload of `load_rules` while writes are under way is not modelled.
- Launching.NoStarvation: is stated for targets of a status with the shortest staleness target, and for ticks that launch something and whose launched scans are recorded before the next tick.
- WholeScans.CleanupIsSound: covers scans stamped after the cut-off, not at it, since two scans of one second may leave different statuses; and it takes a clock that never goes back and reads past zero.
- WholeScans.BanPinning: is about scans taken whole; `RemovalFollowsGuard` and `OvertakingUnpinsExactly` say what is left when they interleave.
- QueueLease.ClaimsAreSeparated: takes a clock that never goes back, which the system clock does not promise.
- PolicyManager.PolicyManager.Write: backoff lengths between retries, and transport errors that escape the loop, appear only as a write that did not get through.
- ScanStore.DB.MostOverdue: status keys are letters, digits and underscores of ASCII; the source's `isalnum` also accepts those of other scripts.
- SuffixText.RulesExactly: is about ASCII lines; labels in other scripts go through the IDNA encoder, which is a parameter.
- The digits of `int()` and of the version pattern are the ASCII ones; other scripts' digits are not modelled.
- The IDNA encoder, the IPv6 parser and the stamp parser are parameters; the header lines that carry a list's version are not read.
- Text order is by code point; a database collation may differ.
- Base64 and SHA-256 are one injective function; float rounding is not modelled.
- Task cancellation, `stop` and `start`, and event-loop order beyond splitting at awaits.
- HTTP, DNS, TLS, the webhook, the metrics server, the command line and the registration, version and support probes: their results are inputs.
- SQL text, migrations and the split between the two databases: each transaction is one step on maps.
- Negative batch limits and staleness values that are not whole numbers.
- Logging, alarms, halt-reason wording, metrics rendering and the persistence of a fetched list.
- `scannable_entities`, `active_rules`, `bucket_counts` and the other read-only statistics: filters and counts over one table or the fold.
- `ipfilter.py`, `fedversion.py`, `supportinfo.py` and `regcheck.py`: short decisions around library calls or I/O.
