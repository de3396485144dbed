# Verified models of the regex benchmarking suite

The repository benchmarks regular-expression matching on network packets with three engines (a DPDK
regex device, Hyperscan, DOCA). This project models the parts of it that hold real state, loops or
translations, and proves what they promise:

- **The packet worker** (`PacketLedger`, `PacketWorker`, `Histogram`, `RoundRobin`, `Fleet`). One
  worker receives bursts of packets, offers them to an asynchronous device, collects completed ones
  and transmits or frees them. The device, the transmit queue and the pool are a `World` whose every
  answer is an arbitrary choice; each call is an event of an ownership ledger and may only give away
  packets that the worker holds. The worker's methods are proved to produce exactly the trace that
  the answers describe, and the ledger laws are proved for all legal traces. On top sit the burst
  histograms, the round-robin subset ids and the aggregation over workers.
- **The rule pipeline** (`RuleCleaner`, `ContentRegex`, `RxpcFilter`, `RuleSubsets`,
  `HyperscanEscape`). The option cleaning of rules, a compiler from Suricata contents to regular
  expressions with a meaning for both sides, the filter that runs an external compiler until it
  rejects nothing, the partition of rules by ratios, and the second escaping pass for Hyperscan.
- **The experiment engine** (`ParamPlan`, `Experiment`, `EventManager`, `SessionRules`). The plan of
  configurations, the queue that is popped, saved and loaded across crashes, the session loop on top,
  the event manager that decides when rules are prepared again, and which runs find their own rules.
- **Signature-group metrics** (`GroupTree`, `GroupNodes`, `GroupMetrics`, `PatternLengths`). The
  traversal of the rule-group document and its levels, what the groups found in it hold, the membership and overlap metrics, the weighted median.
- **The chunked scan** (`ScanQueue`). Cutting a buffer into jobs for a work queue with one buffer.
- **The database cache** (`CachePath`, `HsCache`). The printed cache path, the two-pass array fill,
  and agreement of cached with compiled databases over any history of calls.

`Text` holds strings and sequences (splitting and joining, stripping, unquoting, concatenation, repetition),
`Arith` the shared arithmetic.

Code that changes things step by step is modelled by methods and classes proved against
specification functions; what the code promises is proved about those functions.

Results that differ from what one would expect of the code:

- Content compilation keeps the meaning exactly for contents without a backslash
  (`ContentRegex.CompilePreservesMeaning`). The class-escaping pass leaves a compiled content unchanged
  exactly when no character of a hex block lands unguarded in a closed class, which can only happen in
  malformed blocks (`HyperscanEscape.CompiledContentUnchanged`, `HyperscanEscape.MalformedHexIsChanged`);
  and a literal goes through `to_hyperscan` unchanged exactly when, besides, it has no line end
  (`HyperscanEscape.LiteralReachesHyperscan`).
- The walk backwards in `clean_and_fix` passes over the option before each one it removes, so it can
  step over a kept content and take that content's modifier
  (`RuleCleaner.KeptContentLosesModifier`); `RuleCleaner.WalkAsIntended` says for which lists it
  removes what it is meant to, `RuleCleaner.WalkEnds` for which it ends at all.
- The subset-id parser counts the fields of the ratio string exactly when it does not start with a
  colon (`RuleSubsets.RatiosAreFields`).
- A burst can fall outside the histogram exactly when the bucket size does not divide the burst size
  or the burst size is zero (`Histogram.EveryBurstLands`). What the drain dequeues is not charged to
  the histogram, so the dump shows drained packets as enqueued only; and its count of enqueued bursts
  is one of packets (`Fleet.RunApp`).
- A resumed session needs two completed configurations to make progress
  (`Experiment.ProgressNeedsTwo`), and `get_configs_left` can go below zero after repeated resumes
  (`Experiment.LoadedCounters`). A death inside `save_state` loses the experiment: the file has been
  emptied by then, and every later resume fails to read it (`Experiment.CanBeFinished`).
- `setup` removes the prepared rules at every start, and a resumed session does not trigger on its
  first configuration. Its runs find rules for their own trigger values once a trigger key has changed;
  before that never in an experiment with subset ratios, and in one without them exactly when the last
  precompile script had the values of the session's first configuration
  (`EventManager.RulesAfterResume`, `SessionRules.RunFindsItsRules`).
- The cache is right as long as no two rule files that occur have the same digest
  (`HsCache.CacheAgrees`); of two that do, the second is answered with the database of the first
  (`HsCache.CollisionServesOther`, `HsCache.WrongDatabase`).
- The jobs of the DOCA sample tile the buffer exactly when its length fits 32 bits and its last read
  offset 31 (`ScanQueue.JobsTileBuffer`); of 2^32 bytes nothing is scanned
  (`ScanQueue.NothingScanned`).
- The dotted name of a level finds its own node's groups exactly when no key has a dot in it, or the
  node has none and the name, read key by key, leads to none either; the empty name finds the whole
  document (`GroupTree.LevelExactly`, `GroupTree.DottedKeyFindsNone`,
  `GroupTree.DottedKeyFindsForeign`, `GroupTree.EmptyKeyFindsAll`). A key "global" replaces the global
  level (`GroupTree.AnalyzeLevels`).

## Model
| member | source | states |
|---|---|---|
| PacketLedger.OneOwner | regex-test.c:624-814 | after any legal sequence of receive, enqueue, complete, transmit and free calls each received packet is in exactly one of: held, in flight, sent, freed |
| PacketLedger.Conservation | regex-test.c:624-814 | the four places together hold as many packets as were received |
| PacketLedger.PlacesAre | regex-test.c:624-814 | how often a packet is sent or freed is how often the trace transmits or frees it, and it is in flight as often as it was enqueued and not completed |
| PacketLedger.DisposedOnce | regex-test.c:570-585 | a packet once sent or freed is never sent, freed or enqueued again |
| PacketWorker.Worker.ForwardOrFree | regex-test.c:570-585 | exactly the given packets leave the worker: a prefix that the port takes is sent, the rest is freed once, nothing stays held |
| PacketWorker.Worker.PrepareOps | regex-test.c:693-720 | op i points at packet i of the burst, and the group ids continue the round robin from the packets prepared before, across bursts |
| PacketWorker.Worker.OfferBurst | regex-test.c:722-742 | the whole burst is offered with its group ids, the device takes some prefix, the packets it does not take are freed once |
| PacketWorker.Worker.PollBurst | regex-test.c:624-754 | receiving half of a pass: for any answers the trace is the one they describe, nothing stays held; for any bucket size the accepted count, 0 included, is charged as one burst to the bucket whose bounds it lies between |
| PacketWorker.Worker.Collect | regex-test.c:772-786 | only user pointers below the dequeued count are followed, though later ops may be remains of an enqueue |
| PacketWorker.Worker.PollCompletions | regex-test.c:756-798 | completing half: the dequeued packets were in flight, and exactly they are sent or freed; unless there are none, they are charged as one burst to the bucket of their number |
| PacketWorker.Worker.Poll | regex-test.c:624-803 | one pass keeps: nothing held; the trace is that of the pass's answers, and each histogram shows one burst more for what they accepted or completed |
| PacketWorker.Worker.Drain | regex-test.c:805-817 | the drain frees what it dequeues, stops at the first empty answer, and empties the device if the device answers nothing only when empty |
| PacketWorker.Worker.Run | regex-test.c:587-842 | for any answers and any number of passes: one owner per packet, received equals sent plus freed plus in flight, equal to sent plus freed exactly if the device is empty, which an eager device is; and for any bucket size, each bucket counts and sums exactly the accepted bursts, or the completed ones, between its bounds |
| Histogram.BurstHistogram.Record | regex-test.c:744-752 | a burst within the last bound is charged to exactly one bucket, a larger one to none; the packet total grows accordingly |
| Histogram.BucketIsFirst | regex-test.c:744-752 | bucket i is charged exactly for the sizes above bound i and up to bound i + 1 (all up to the first bound for i = 0) |
| Histogram.TallyTotal | regex-test.c:744-752 | when no burst is beyond the last bound the packets in all buckets are the packets of all bursts |
| Histogram.EveryBurstLands | regex-test.c:321-322 | every burst up to the burst size finds a bucket if and only if the burst size is positive and the bucket size divides it |
| Histogram.NinePacketsLost | regex-test.c:321-322 | sizes for which a burst finds no bucket |
| RoundRobin.LoadIsShare | regex-test.c:709-717 | of the first n packets, group g of cnt gets n / cnt, and one more if g is within the remainder |
| RoundRobin.LoadsBalanced | regex-test.c:709-717 | over any prefix of the packets two groups differ by at most one packet |
| Fleet.Launch | regex-test.c:931-951 | each worker whose initialisation succeeds fills its own slot and no other; with as many workers as queues all results are kept, in slots below the queue count |
| Fleet.AggregateStats | regex-test.c:985-1004 | every bucket of the aggregate is the sum of that bucket over the workers that ran |
| Fleet.FleetAccounts | regex-test.c:985-1004 | what single workers counted as enqueued and not as dequeued adds up in the dump, over all buckets |
| Fleet.RunWorker | regex-test.c:587-842 | a worker hands over one slot in which each bucket shows the bursts that its device accepted and completed; enqueued packets are the dequeued ones, those drained and those left in the device |
| Fleet.RunApp | regex-test.c:931-1004 | all workers run, drained and dumped: for any bucket size each bucket of the dump sums the packets, and counts the completed bursts, of the accepted and completed bursts of all workers that ran; when every burst has a bucket, the totals are all packets accepted and completed, and their difference is what was drained and what the devices hold; no worker that failed to initialise touches its device |
| ContentRegex.SuricataContentToRegex | data/rule_lib.py:98-122 | the split-and-toggle loop produces the expression of the specification compiler, for every content, well-formed or not |
| ContentRegex.CompileMatchesRaw | data/rule_lib.py:98-122 | for balanced blocks of hex pairs with optional spaces, the expression matches exactly the bytes of the content read without escapes |
| ContentRegex.CompilePreservesMeaning | data/rule_lib.py:98-122 | the language of the output is exactly the byte string that a well-formed content denotes, if and only if the content has no backslash |
| ContentRegex.EscapeLosesMeaning | data/rule_lib.py:98-122 | an escaped quote denotes one byte, but its compiled expression matches two |
| ContentRegex.CompileIsIdentity | data/rule_lib.py:113-117 | a content is its own expression if and only if it has none of the characters that are escaped or delimit hex blocks |
| RxpcFilter.EmitContents | data/rule_lib.py:163-179 | which expressions the contents of a rule give, and that a rule is illegal exactly if one is negated |
| RxpcFilter.EmitPcres | data/rule_lib.py:180-198 | which expressions the pcres of a rule give, and that a rule is illegal exactly if one is |
| RxpcFilter.EmittedContent | data/rule_lib.py:32-37 | each quoted content before the first negated one, if well-formed and without a backslash, gives an expression that matches exactly the bytes between its quotes |
| RxpcFilter.EmittedPcre | data/rule_lib.py:180-198 | each pcre before the first illegal one is emitted without its quotes, or as it is if it is not quoted at both ends |
| RxpcFilter.LegalPcreIs | data/rule_lib.py:180-198 | a pcre is legal if and only if, between its quotes and up to blanks, it ends in a slash and one of the four modifiers |
| RxpcFilter.NumberPatterns | data/rule_lib.py:157-200 | ids run from 1 to n in the order of the patterns and each id maps to the sid of the rule its pattern came from |
| RxpcFilter.FilterRxpc | data/rule_lib.py:144-228 | for an arbitrary compiler the loops keep exactly the input rules, in order, whose sid was scanned, is legal and owns no rejected pattern; a rejected id that was never given out is a KeyError |
| RxpcFilter.RejectionShrinks | data/rule_lib.py:200-228 | a run that rejects anything keeps strictly fewer rules, so the iteration ends |
| RxpcFilter.KeptRuleWasCompiled | data/rule_lib.py:144-228 | with unique sids every kept rule is legal and all its patterns were in the compiler run |
| RxpcFilter.KeptRuleIsMatched | data/rule_lib.py:144-228 | for every such content of a kept rule the run compiled an expression that matches exactly its bytes, and every quoted pcre as it stands between its quotes |
| RxpcFilter.FullRxpcFilter | data/rule_sampler.py:289-296 | the repeat loop terminates for every compiler whose log and summary agree, and returns what a run on the last input of the iteration keeps |
| RxpcFilter.LastInputSettles | data/rule_sampler.py:289-296 | that last input is a selection of the database by sid, and unless its run ends in a KeyError nothing is rejected in it |
| RxpcFilter.WorkingSetCompiles | data/rule_sampler.py:289-296 | with unique sids every rule of the final database is a legal rule of the first one, and every pattern of it was in the last compiler run, which rejected nothing |
| RxpcFilter.WorkingSetIsMatched | data/rule_sampler.py:289-296 | the same for every rule of the final database and the last run, which rejected nothing |
| RuleSubsets.RulesToSubsets | data/rule_sampler.py:412-432 | refuses ratios that do not sum to one, and rules that are not more than the ratios; otherwise writes the corrected sizes' slices behind their markers |
| RuleSubsets.SizesMeetRatios | data/rule_sampler.py:421-424 | sizes are non-negative and sum to the rule count, each but the last is within one below its share, the last exceeds its share by less than the number of others, by nothing if alone |
| RuleSubsets.SubsetsPartition | data/rule_sampler.py:412-432 | without the marker lines the file is the input, and the markers carry the ids 1 to k in order |
| RuleSubsets.ParseSubsetRatios | regex-test.c:139-143 | the sliding-pointer loop returns one more than the colons from the second character on |
| RuleSubsets.RatiosAreFields | regex-test.c:139-143 | that is the number of colon-separated fields if and only if the string does not start with a colon |
| RuleSubsets.LeadingColonMissed | regex-test.c:139-143 | a string whose two fields are counted as one |
| RuleSubsets.GroupsAreWritten | regex-test.c:709-717 | every subset id given to a packet is one that the partitioner wrote for the same ratio string |
| HyperscanEscape.EscapeChars | data/rule_sampler.py:205-211 | the chained substitutions escape each of their four characters as the one-pass specification does |
| HyperscanEscape.EscapeClassesIdempotent | data/rule_sampler.py:239-252 | escaping the classes of any pattern twice is escaping them once |
| HyperscanEscape.PassUnchanged | data/rule_sampler.py:205-211 | the pass leaves a pattern unchanged if and only if no fragile character in a closed class lacks a backslash before it |
| HyperscanEscape.CompiledContentUnchanged | data/rule_sampler.py:239-252 | the pass is the identity on a compiled content if and only if a one-pass scan of the content finds no exposed character in a hex block, as on all well-formed contents |
| HyperscanEscape.MalformedHexIsChanged | data/rule_sampler.py:239-252 | a compiled malformed content that the pass changes |
| HyperscanEscape.MatchedPatternIs | data/rule_sampler.py:236-239 | a line gives what stands between its first character, if that is a slash, and the last slash before its first line end, whatever follows; any other line gives itself |
| HyperscanEscape.WrapAndMatch | data/rule_sampler.py:226-239 | a pattern wrapped in slashes is extracted whole without line ends, and otherwise as the whole line or a proper prefix before its first line end |
| HyperscanEscape.LiteralReachesHyperscan | data/rule_sampler.py:226-252 | for every content, wrapping, extracting and escaping give its expression back if and only if it has no line end and exposes no hex character; a well-formed one exposes none |
| RuleCleaner.WalkBack | data/rule_sampler.py:51-56 | the backward loop with deletions from the end computes the specification walk, index errors included |
| RuleCleaner.WalkKeeps | data/rule_sampler.py:51-56 | whatever the walk does, it only removes http. and dns. options |
| RuleCleaner.WalkEnds | data/rule_sampler.py:51-56 | the walk ends without an index error if and only if the list is a head followed by blocks of three shapes, and then leaves the head and the first option of each block |
| RuleCleaner.WalkAsIntended | data/rule_sampler.py:51-56 | the walk removes exactly the modifiers after the last content keyword if and only if the list is tidy, a condition on neighbouring options |
| RuleCleaner.KeptContentLosesModifier | data/rule_sampler.py:51-56 | a list for which the walk removes a modifier of a content that is kept |
| RuleCleaner.CleanOptions | data/rule_sampler.py:44-64 | the whole option loop computes the specification, for every option list, with both kinds of index error |
| RuleCleaner.LoopEnds | data/rule_sampler.py:44-64 | the loop ends in a backward index error if and only if some walk gets stuck, otherwise in a forward one if and only if some unwanted option dangles, otherwise with the options kept |
| RuleCleaner.StuckUnparsed | data/rule_sampler.py:51-56 | a walk gets stuck if and only if the options kept before it are not a head followed by blocks |
| RuleCleaner.NamesAre | data/rule_sampler.py:50-59 | which names and values make an option unwanted, a keyword, a modifier or a stop of the forward walk |
| RuleCleaner.PassedOverAre | data/rule_sampler.py:57-59 | an option is passed over if and only if a pcre or a negated content comes before it, and from there up to it no option is a sid, content, pcre or http. one |
| RuleCleaner.ModifierOfNextIsKept | data/rule_sampler.py:57-59 | a list on which an http option after a pcre stays, because it belongs to the content that follows |
| RuleCleaner.CleanedRule | data/rule_sampler.py:44-64 | a rule ending in its sid never runs off the end and is cleaned if and only if no walk gets stuck; then it has no pcre, no negated content, every other content and sid in order, and nothing new |
| ParamPlan.ProductOrder | autotest/expelib.py:820-826 | the product is in lexicographic order: row by row of the first parameter, each row the product of the others |
| ParamPlan.ProductMembers | autotest/expelib.py:820-826 | a tuple is in the product exactly if each place holds a value of its parameter |
| ParamPlan.ProductDistinct | autotest/expelib.py:820-826 | without repeated values no combination occurs twice |
| ParamPlan.PlanIsExact | autotest/expelib.py:820-844 | with distinct names and values every admissible configuration is planned exactly n times and no other at all |
| ParamPlan.PlanSize | autotest/expelib.py:850-854 | the plan's size is the number of combinations minus n for every refused tuple |
| Experiment.ParameterHandler.BuildConfigs | autotest/expelib.py:820-844 | the queue becomes the plan, and the counters agree with it |
| Experiment.ParameterHandler.PopParams | autotest/expelib.py:787-796 | builds the plan first if the experiment has not been started; the head of the queue comes out and becomes current, the counters move by one; an empty queue changes nothing |
| Experiment.ParameterHandler.PeekParams | autotest/expelib.py:808-813 | builds the plan first if needed, and shows the head of the queue without taking it |
| Experiment.ParameterHandler.Load | autotest/expelib.py:865-882 | loading puts the saved current configuration back at the head of the saved queue and takes the counters over |
| Experiment.HashIsSum | autotest/expelib.py:859-864 | the parameter hash is the sum of the hashes of all names and value lists, modulo the prime |
| Experiment.RunSession | autotest/exp_runner.py:124-225 | one life of the process, finished or dead between runs, in one, before or inside a save, records a stretch of the plan and leaves the save file of the position it reached, or an unreadable one; with an unreadable one it ends at once |
| Experiment.NothingSkipped | autotest/exp_runner.py:164-223 | after any sessions and crashes everything before the saved position has been recorded, and nothing outside the plan |
| Experiment.InPlanOrder | autotest/exp_runner.py:164-223 | no configuration is recorded before all configurations ahead of it in the plan have been, in any session |
| Experiment.ProgressNeedsTwo | autotest/expelib.py:865-882 | while the state is readable, a resumed session advances the saved position if and only if it completes two configurations, a fresh one if it completes one |
| Experiment.TornByDeath | autotest/expelib.py:884-896 | the saved state is lost if and only if some session died while saving it |
| Experiment.CanBeFinished | autotest/expelib.py:865-896 | one more session can finish the experiment if and only if the state is not lost; once it is, no session records anything |
| Experiment.LoadedCounters | autotest/expelib.py:865-896 | left plus popped keep the plan's size over loads, while the queue is longer than left by one for each load |
| EventManager.ParameterEventManager.GetParamDiff | autotest/expelib.py:912-922 | the loop over the previous keys, in any order, finds exactly those whose values differ, so new keys go unseen; it is a KeyError exactly when a previous key is missing; without a previous step all keys or none |
| EventManager.ParameterEventManager.ProcessParameters | autotest/expelib.py:912-937 | exactly the triggers whose keys meet the changed parameters fire, in registration order, with the new parameters; a missing key is a KeyError without effect |
| EventManager.LastCallIsPrepared | autotest/expelib.py:924-937 | over any steps the last logged call of a registered trigger is the cache entry of the abstract view |
| EventManager.Drive | autotest/expelib.py:901-937 | a new manager driven along any steps with the same keys logs exactly the specified callbacks, and what each trigger leaves behind is what the cache view says, for any start |
| EventManager.AlwaysPrepared | autotest/expelib.py:912-937 | with a triggering blank start, after every step the last callback of a disjunction trigger had the current values of all its keys |
| EventManager.PreparedAfterResume | autotest/expelib.py:912-937 | with a silent blank start, what is prepared serves the current step if and only if what lay there served the first step or a trigger key has changed since |
| EventManager.ConjunctionStep | autotest/expelib.py:924-937 | a conjunction trigger keeps up with a step if and only if none or all of its keys changed |
| EventManager.RulesAfterResume | autotest/exp_runner.py:144-173 | with the directory cleared by setup and whatever the precompile scripts left, for any experiment: a run of a resumed session has rules for its own values of the trigger keys there are if and only if one of them has changed, or there are no subset ratios and the last script had the first configuration's values; in a fresh session always |
| EventManager.FirstRunWithRatios | autotest/exp_runner.py:81-112 | the first run of a resumed experiment with subset ratios never finds its own rules |
| EventManager.FirstRunWithoutRatios | autotest/exp_runner.py:81-112 | without subset ratios it finds them if and only if the last precompile script had its values, which can happen |
| SessionRules.PlanKeys | autotest/expelib.py:820-844 | all configurations of a plan have the same keys, the parameter names |
| SessionRules.SessionCalls | autotest/exp_runner.py:147-173 | the event manager driven along a session's stretch of the plan yields the session's callback log |
| SessionRules.RunFindsItsRules | autotest/exp_runner.py:124-173 | for every plan, saved position and position reached: exactly when that run finds rules for its own trigger values, in resumed and in fresh sessions |
| GroupMetrics.Memberships | et-analysis/met7.py:77-80 | every signature is mapped to the set of groups that list it, whose size is its membership count |
| GroupMetrics.OverlapLoop | et-analysis/met7.py:88-97 | the pair loops compute the sum of all pairwise intersections and the number of pairs |
| GroupMetrics.DoubleCounting | et-analysis/met7.py:88-97 | that sum equals the sum of m(m-1)/2 over the signatures |
| GroupMetrics.MembershipsAreSizes | et-analysis/met7.py:82 | membership counts sum to the sizes of the groups as sets |
| GroupMetrics.HistogramAccounts | et-analysis/met7.py:101-102 | the multiplicity histogram sums to the number of signatures and, weighted, to the group sizes |
| GroupMetrics.ComputeMetrics | et-analysis/met7.py:68-112 | average memberships, unique coverage, average overlap and histogram in terms of set sizes and membership counts, with the zero cases |
| PatternLengths.Merge | et-analysis/met7.py:198-203 | the size table holds the same multiset of lengths as the entries, and exactly their sizes as keys |
| PatternLengths.MedianLength | et-analysis/met7.py:219-234 | for a positive total the cumulative loop returns the lower median of the fully expanded multiset; for zero counts the least size |
| PatternLengths.MedianOfListing | et-analysis/met7.py:224-231 | that lower median is the middle element of any sorted listing of the multiset |
| GroupTree.GroupList.ExtractInto | et-analysis/met7.py:30-50 | the recursion appends to the shared list exactly the pre-order list of groups with their paths |
| GroupTree.ExtractGroups | et-analysis/met7.py:52-66 | a filter selects the groups below the node that its dotted path reaches, none if it reaches none |
| GroupNodes.FilteredAre | et-analysis/met7.py:30-66 | the groups returned are exactly those that the nodes with a rulegroup describe, below the node that the filter's keys lead to or anywhere, each with the full path of its node, list elements numbered from 0 in decimal |
| GroupNodes.GroupsAre | et-analysis/met7.py:30-50 | the same for the recursion, from any node and path |
| GroupNodes.SigIdsAre | et-analysis/met7.py:40-41 | a group's signatures are the values under "sig_id", one for each rule that has the key, in the order of the rules, and no other list is |
| GroupNodes.SigIdsMembers | et-analysis/met7.py:40-41 | a value is among them if and only if some rule has it under "sig_id" |
| GroupNodes.OwnIs | et-analysis/met7.py:38-45 | a dictionary is a group if and only if it has a rulegroup; its statistics are its own unless missing or null, then those of the rulegroup, then empty |
| GroupNodes.DigitsAre | et-analysis/met7.py:49-50 | the path component of a list element is the decimal numeral without leading zeros that reads back to its place |
| GroupNodes.GroupsInPreOrder | et-analysis/met7.py:30-50 | no node is listed twice and every node comes before those below it |
| GroupTree.LevelIsSubtree | et-analysis/met7.py:280-289 | the dotted name built for a node below plain keys finds exactly the groups of that node, with full paths |
| GroupTree.LevelsCompose | et-analysis/met7.py:280-289 | a level's groups are its own group, if any, followed by its children's levels in order; for the root: global is the concatenation of the top-level lists |
| GroupTree.AnalyzeLevels | et-analysis/met7.py:271-294 | the table has "global", every top-level key and every dotted second-level key, each with the groups that name finds |
| GroupNodes.LevelNamesAre | et-analysis/met7.py:280-289 | the levels are named by the keys of the document, and by each of them, a dot and a key of the dictionary below it |
| GroupTree.LevelExactly | et-analysis/met7.py:280-289 | for every node: the name built for it finds exactly its groups if and only if its keys have no dots, or it has no groups and the name leads to none; the empty name if and only if the document has no other groups |
| GroupTree.EmptyKeyFindsAll | et-analysis/met7.py:57-66 | a document whose empty top-level key finds more than its node |
| GroupTree.DottedKeyFindsNone | et-analysis/met7.py:57-66 | a document whose dotted top-level key finds nothing |
| GroupTree.DottedKeyFindsForeign | et-analysis/met7.py:57-66 | a document whose dotted top-level key finds a foreign group |
| ScanQueue.JobsTileBuffer | doca/regex_scan/regex_scan_sample.c:365-367 | at most six jobs; each read offset is chunk length times job index and the jobs tile the buffer, if and only if the length fits the integer widths |
| ScanQueue.NothingScanned | doca/regex_scan/regex_scan_sample.c:405-427 | a length at which no job is planned and the buffer is not tiled |
| ScanQueue.OneByteScanned | doca/regex_scan/regex_scan_sample.c:405-427 | a length at which one job of one byte is all that is planned |
| ScanQueue.AtMostSix | doca/regex_scan/regex_scan_sample.c:365-367 | no length gives more than six jobs |
| ScanQueue.ChunkIsSixth | doca/regex_scan/regex_scan_sample.c:365-367 | six chunks reach past the end of the buffer and six that are one byte shorter would not; fewer than six bytes are one chunk |
| ScanQueue.RegexScan.EnqJob | doca/regex_scan/regex_scan_sample.c:204-253 | a buffer is asked for exactly when bytes remain and nothing is in flight, and a job submitted exactly when one was given; the result is 1, 0 or -1 as the queue answered; what is submitted is the next job of the plan, into a result slot and with a buffer that no job in flight uses; short of an error no job or buffer is lost |
| ScanQueue.RegexScan.RetrieveOne | doca/regex_scan/regex_scan_sample.c:268-279 | the buffer given back through the shared field is the retrieved job's own, and its matches are reported at chunk length times its own index |
| ScanQueue.RegexScan.DeqJob | doca/regex_scan/regex_scan_sample.c:262-291 | retrieves until the queue answers that nothing is ready, counting each event, or fails; one retrieval more than there were events |
| ScanQueue.Scan | doca/regex_scan/regex_scan_sample.c:343-432 | a successful scan submitted the planned jobs in order and retrieved each of them once; an I/O error means that the queue failed outright; it ends as soon as all is retrieved, and with a queue that accepts and completes everything after one pass for each job |
| CachePath.ConstructCacheFile | util-hs.c:130-152 | the buffer holds the printed path of digest and flags as a C string; panics exactly for digests that might not fit |
| CachePath.CacheFileInjective | util-hs.c:130-152 | two equal paths have equal digests and equal flags |
| CachePath.HexByteBack | util-hs.c:142-147 | a byte is printed as two lower-case hexadecimal digits, the high one first |
| CachePath.HexBytesAt | util-hs.c:142-147 | the bytes of the digest are printed from the first on |
| CachePath.HexNumberIs | util-hs.c:148-150 | the flags are printed in hexadecimal, without leading zeros beyond two digits |
| CachePath.SomeCacheFile | util-hs.c:130-152 | the whole path for a digest of two bytes |
| HsCache.FillArrays | util-hs.c:211-261 | the fill with a moving bound stores exactly the non-blank lines in order with the given flags; panics exactly for an unterminated line |
| HsCache.GetLinesAre | util-hs.c:211-261 | the lines put together are the file, cut after each newline |
| HsCache.PatternIs | util-hs.c:211-261 | the pattern of a line is its text without the newline, or what comes before the first NUL in it |
| HsCache.Cache.InitFromCache | util-hs.c:154-195 | returns what the cache file of the content's digest and the flags deserializes to, if it is there |
| HsCache.Cache.InitDb | util-hs.c:197-339 | one call behaves as the specification step on the file system, for any failure on the way |
| HsCache.CallSucceeds | util-hs.c:197-339 | a database is handed out if and only if the cache has it, or memory, compiler, serializer, and the writing to its end succeed |
| HsCache.OthersUntouched | util-hs.c:197-339 | a call changes no cache file but that of its own digest and flags, and none on a hit |
| HsCache.CallAgrees | util-hs.c:197-339 | for contents without digest collisions: one call keeps every cache file a whole or a first part of its own content's serialization, and a returned database is the compiled one |
| HsCache.HistoryCoherent | util-hs.c:197-339 | every cache file after a history is the file of a content that occurred in it and some flags, and holds all or a first part of what these serialize to |
| HsCache.CacheAgrees | util-hs.c:197-339 | after any history of calls with changing files, flags and failures, if no two files that occurred share a digest, success hands out what compiling the file's non-blank lines under the flags gives |
| HsCache.SecondCallHits | util-hs.c:303-336 | after a call that compiled and succeeded the same file and flags are answered from the cache with the same database |
| HsCache.AssumptionsAreMet | util-hs.c:197-339 | an engine, a history and a call on another file that meet the assumptions, with the right database handed out |
| HsCache.CollisionServesOther | util-hs.c:154-195 | of two files with the same digest the second is answered with the database of the first, which is right if and only if both compile to the same |
| HsCache.WrongDatabase | util-hs.c:154-195 | two files with one digest and different databases, and the wrong answer |

## Left out
- DPDK, DOCA, Hyperscan, OpenSSL and the rxpc compiler: each is an arbitrary chooser of answers or an arbitrary function; the cache assumes a 16-byte digest without collisions among the files that occur and a deserializer that inverts the serializer and rejects files cut short, the iterated filter a compiler whose log and summary agree.
- The outer receive loop runs until a signal; it is watched for an arbitrary finite number of passes, and so is the scan loop.
- Machine widths of counters: packet, burst and byte counters of the worker are unbounded, as is `expression_count`; the DOCA byte counter and offset have their widths.
- MAC swapping, packet parsing, what Hyperscan finds in a packet, timing, logging, per-bucket matches and round-trip fields (they are indexed one bucket beside the burst counters).
- Packets of a failed or repeated queue set-up, memory exhaustion in the worker's allocations.
- RuleSubsets.SizesMeetRatios: ratios are reals, not floats, and non-negative; the writing method is modelled for negative ones too, with Python's slices.
- RuleSubsets.GroupsAreWritten: the two programs' readings of one string are connected through the number of fields; parsing a field to a number is not modelled.
- RxpcFilter.FilterRxpc: rules come parsed; the rule parser, the files and the log format are not modelled.
- Hyperscan id mapping: printed ids start at 1 and the map at 0, so no claim is made that `filter_hyperscan` maps ids back; the rebuild of lines for `to_hs_tools` is left out too.
- HyperscanEscape.EscapeClassesIdempotent: says nothing about the meaning of general PCREs, which the pass changes for negated classes.
- ContentRegex.CompilePreservesMeaning: matching is defined on expressions made of escaped or plain literals and hex escapes, the only ones the compiler emits for well-formed contents.
- RuleCleaner.CleanedRule: options come parsed; the option filters before the loop and the renamings after it are left out.
- Experiment.RunSession: the experiment's parameters do not change between sessions and every session is asked to resume from the save file; the retry of invalid runs counts as one completed configuration, and the result table with its CSV round trip is only a log of recorded configurations.
- Saving before anything was popped puts None at the head of the queue after a load; the session loop never does so, the contract of `Load` shows it.
- The parameter hash is two arbitrary functions of the names and of each value list; filters and repeats are not part of it, as in the code.
- GroupTree.ExtractGroups: documents whose "rulegroup" or "rules" have an unexpected shape, which raise errors, count as having no rules.
- EventManager.RulesAfterResume: the scripts themselves are not modelled; a directory that cannot be removed is left out, and so are the other parameters that shape the rules (pattern database, keywords, pattern length), on which the trigger does not look.
- GroupMetrics.ComputeMetrics: the entropy is left out, and quotients are reals.
- PatternLengths.MedianLength: counts are natural numbers; the other statistics of the same function are left out.
- ScanQueue.RegexScan.EnqJob: the scanned bytes are not modelled (the report writes a NUL behind each match); a submission that fails outright ends the scan and keeps its buffer, as in the code.
- HsCache.Cache.InitDb: the rule file does not change during one call, and the second digest of a call succeeds if the first did.
- Packet generators, pattern compression, plots, LaTeX and pandas scripts, tmux, ssh and templating helpers, `doca_dpi`: thin wrappers or foreign calls.
