# Context Twin: a verified model

Context Twin keeps a governed map of *reference-cells*: each cell says where a value lives at its
source and what it means, and holds no value. A query decides live which rows are one person, keeps
that decision in an overlay of its own, and joins the values of the person across sources through a
gated, time-limited cache. An audit chain, a locator codec, a concept router and an onboarding path
support it. This project models those parts in Dafny and proves what they keep.

Code that works in place is a class or a loop here, proved against a function of the state; what the
system promises is then proved about those functions, for every input, every run or every state.

| module | what it models |
|---|---|
| `Contract`, `Text`, `Dicts`, `Connectivity` | shared values, string order and runs, insertion-ordered dictionaries, chains of edges |
| `Utf8`, `Locators` | the locator codec, down to bytes |
| `Store`, `Masters` | the table of cells with its overridable grouping, its reads and the grid view |
| `UnionFind`, `Matching`, `MatchingLaws`, `Scan`, `Resolver`, `ResolverLaws` | query-time resolution |
| `Reading`, `Overlay` | the query-scoped grouping, and reading through it |
| `Gate`, `Fetch`, `FetchLaws`, `Conflict`, `Join` | the gate, the policy registry, the fetch ladder, and the cross-source join |
| `Audit` | the hash-chained log |
| `Router`, `Descent` | concepts to sources to candidates |
| `Inversion`, `Onboarding`, `OnboardingLaws`, `SeedLaws` | minting, seed grouping and onboarding |
| `Demo`, `DemoLaws` | the wiring: seed and onboard, resolve then join, end to end |

Conventions. An exception is an `Err` or an error outcome by its Python class. A point in time or a
duration is an integer number of microseconds, and every clock reading is an input. The adjudicator is
an oracle `answer(n, a, b)` indexed by the number of the call, so that nothing ties one answer to
another; `None` is an exception. Similarity, `str.lower`, timestamp parsing and the digests are
uninterpreted functions.

Where the code and its documentation differ, the model follows the code:

- `audit/sink.py:10-11` and `audit/sink.py:99` say that any edit, insertion or deletion breaks the chain.
  The chain tells only whether the hashes fit the entries: a log verifies exactly when it is what appending
  its own entries would have written (`Audit.VerifiesExactly`). So a cut at the end goes unseen, and so does
  any other tampering whose later rows are hashed anew (`Audit.RechainedVerifies`, with such a log in
  `Audit.RechainedDeletion`). Where the other rows stay as they were, `Audit.DrawnVerifiesExactly`,
  `Audit.EditDetected` and `Audit.InsertDetected` say exactly what is seen. Every tampering is seen by
  whoever also knows the last hash (`Audit.AnchoredExactly`).
- `fetch/adapter.py:5` presents the cache as preventing repeat reads. That holds of a cell exactly when
  its source has the row: a read that raises stores nothing and counts again at once
  (`Fetch.SpacedExactly`, with the failing run in `Fetch.RaisingIsNotSpaced`).
- `locators.py:19-20` says that malformed input raises. A broken percent escape does not: it stands for
  itself (`Locators.BrokenEscapeParses`). `Locators.ParsesExactly` says exactly what is accepted.
- `resolution/resolver.py:5-7` says that a wrong match cannot poison any other caller. The overlay is per
  query, but the verdicts in `_memo` are shared by all callers of a resolver. They do not show where the
  adjudicator's answers do not vary (`ResolverLaws.MembersExactly`), and can where they do
  (`ResolverLaws.OthersVerdictDecides`). `ResolverLaws.MemoryShowsExactly` says exactly when for two
  candidates, and `ResolverLaws.MembersAsRemembered` by which verdicts any list is decided.

Where the code keeps a promise of its documentation that is not plain from one body:
`onboarding/classify.py:201-204` says that a wrong guess changes only when a field is classified, never
the eventual result. `OnboardingLaws.DeferralOnlyDelays` proves it of the table and of the proposals,
given the samples the fields had.

## Model

| member | source | states |
|---|---|---|
| `UnionFind.Forest.constructor` | resolution/resolver.py:167 | every key starts as its own class, and nothing is united |
| `UnionFind.Forest.Find` | resolution/resolver.py:169-173 | path halving terminates at the root of the class, and changes no key's class although it rewrites links |
| `UnionFind.Forest.Union` | resolution/resolver.py:175-176 | exactly the two classes become one, in spite of both inner walks; the classes stay those of the united pairs |
| `UnionFind.HalvingKeepsForest` | resolution/resolver.py:171 | moving a link up one step keeps every root and every rank |
| `UnionFind.LinkingKeepsForest` | resolution/resolver.py:176 | hanging one root under another keeps a forest, with the ranks of the other class lifted |
| `UnionFind.MergedLabels` | resolution/resolver.py:175-176 | classes that match chains of united pairs still do with one more pair united |
| `Connectivity.LabelsExact` | resolution/resolver.py:189-190 | having one root is being linked by a chain of pairs, both ways |
| `Matching.PairKeySymmetric` | resolution/resolver.py:242 | both directions of a pair of texts share one memory key |
| `Matching.PairKeyExactly` | resolution/resolver.py:242 | two pairs of texts have one memory key exactly when they are the same pair, in either order |
| `MatchingLaws.MatchExactly` | resolution/resolver.py:231-252 | which pairs are one person, in texts and thresholds: a shared email or a similarity of at least `high` without a call and whatever the adjudicator says; below `low` not, without a call; in between by the remembered verdict or one call |
| `MatchingLaws.SharedEmailExactly` | resolution/resolver.py:232-234 | an email is shared when lower-casing and dropping the white space around make the two one, and not empty |
| `MatchingLaws.BlockExactly` | resolution/resolver.py:224-229 | two records are compared exactly when their lower-cased organisations have a maximal stretch of letters and digits in common, or both have a name and the last words of these one initial |
| `MatchingLaws.InitialExactly` | resolution/resolver.py:124-126 | the initial is that of the last stretch without commas and white space, and empty for a name of nothing else |
| `Text.RunsExactly` | resolution/resolver.py:120-126 | splitting a text finds exactly the stretches of kept characters that cannot be made longer, and misses none |
| `Matching.AskKeepsSound` | resolution/resolver.py:243-251 | the memory holds exactly the verdicts that were given, no pair of texts gets two, and nothing remembered is lost |
| `Scan.EdgesExactly` | resolution/resolver.py:178-186 | for any adjudicator, an edge is exactly a pair that passes blocking and matching when its turn comes |
| `Scan.ScanFixed` | resolution/resolver.py:178-186 | with answers that do not vary, memory and order of asking do not show in the edges |
| `Scan.EdgesGrounded` | resolution/resolver.py:246-252 | with any adjudicator, failing ones included, each edge is one person by its band or by a verdict that was given and is remembered: no failure adds one |
| `Scan.ScanKeepsMemo` | resolution/resolver.py:243-251 | whichever calls fail, what is remembered are verdicts of the adjudicator that never fails |
| `Scan.ScanKeepsSound` | resolution/resolver.py:178-186 | over a whole scan at most one verdict is obtained for a pair of texts, and verdicts are only added |
| `Scan.ScanSettles` | resolution/resolver.py:178-186 | after a scan without failures nobody need be asked again, and its edges are those the memory tells |
| `Scan.RepeatedScan` | resolution/resolver.py:178-186 | scanning again, any time after a scan without failures, calls nobody and joins the same pairs |
| `Resolver.Resolver.constructor` | resolution/resolver.py:132-145 | a new resolver remembers nothing |
| `Resolver.Resolver.IdentifyRow` | resolution/resolver.py:207-222 | the identifying record of a row: its cells in order, a later one overwriting, a bad locator or missing row as an error |
| `Resolver.IdentifyExactly` | resolution/resolver.py:207-222 | a row is identified exactly when nothing about any stored cell raises; each field then holds the value of the last cell that fills it, or is empty |
| `Resolver.CandidateExactly` | resolution/resolver.py:160-163 | a candidate is the reference's row key with the record of that row of that source, or the error of the locator or the record |
| `Dicts.SetAllInOrder` | resolution/resolver.py:160-165 | keys stand in the order of their first occurrence |
| `Resolver.Resolver.BuildCandidates` | resolution/resolver.py:160-163 | records by row key alone, a repeated key keeping its place and taking the last reference; the first error stops it |
| `Resolver.Resolver.MatchPair` | resolution/resolver.py:231-252 | shared email, bands, memory and one call at most, with the memory and the conversation afterwards |
| `Resolver.Resolver.UniteMatches` | resolution/resolver.py:178-186 | the nested loops leave the forest and the memory that the pure scan gives |
| `Resolver.Resolver.ComponentOf` | resolution/resolver.py:188-190 | the keys under the root of the first, found by walks that rewrite links, are its chain-connected keys in order |
| `Resolver.ComponentExact` | resolution/resolver.py:189-190 | a key is in the component exactly when it is a candidate linked to the first |
| `Resolver.ComponentInOrder` | resolution/resolver.py:190 | the component lists its keys in candidate order |
| `Resolver.Resolver.ResolveRefs` | resolution/resolver.py:147-195 | refused exactly when the capability has expired, or its purpose is neither a cross-source query nor a data subject's request, or it lacks the clearance; and in each outcome what is merged, returned, remembered and audited; an empty candidate list is an index error |
| `Resolver.Resolver.Prewarm` | resolution/resolver.py:197-204 | a fresh overlay holds the merges of the groups in turn, up to the first that raises; each group that did not raise leaves one audit entry, and the log verifies as before |
| `Resolver.Resolver.AuditResolve` | resolution/resolver.py:254-260 | with a sink, one more chained entry, a resolve event of the caller with that decision; without, nothing |
| `ResolverLaws.ResolvesExactly` | resolution/resolver.py:159-192 | for any adjudicator, an allowed resolution finds exactly the candidates chained to the first by pairs that passed |
| `ResolverLaws.MembersExactly` | resolution/resolver.py:159-192 | with answers that do not vary, membership is chain-connection in the order-free graph of pairs that pass both tests |
| `ResolverLaws.MembersAsRemembered` | resolution/resolver.py:231-252 | with answers that vary but no failure, the same for the verdicts in memory afterwards |
| `ResolverLaws.SecondIsMemberExactly` | resolution/resolver.py:159-192 | of two candidates the second is a member exactly when the two are blocked together and share an email, or are of similarity `high` or more, or of `low` or more with a yes |
| `ResolverLaws.CandidatesPermuted` | resolution/resolver.py:160-165 | with distinct row keys, reordering the references changes only the order of the keys |
| `ResolverLaws.OrderIndependent` | resolution/resolver.py:178-192 | neither the order of the keys nor what is remembered shows in the members, while the first stays among them |
| `ResolverLaws.ReorderedResolve` | resolution/resolver.py:147-195 | the same for whole resolutions over reordered references |
| `ResolverLaws.FailuresOnlyShrink` | resolution/resolver.py:246-252 | an adjudicator that fails more often, at whichever calls, can only lose members |
| `ResolverLaws.MemoryShowsExactly` | resolution/resolver.py:242-252 | for two blocked candidates in the middle band, whosever call filled the memory shows exactly when the remembered verdict is not what the adjudicator would answer now |
| `ResolverLaws.OthersVerdictDecides` | resolution/resolver.py:145 | a run in which one caller's verdict makes a row a member for another caller, for whom the adjudicator would have said no |
| `ResolverLaws.RepeatedResolve` | resolution/resolver.py:147-195 | repeating an allowed, failure-free resolution at once calls nobody, gives the same id and leaves the overlay as it is |
| `ResolverLaws.RepeatedAfterSteps` | resolution/resolver.py:147-195 | repeating it after any further calls along the overlay, refused and failed ones included, calls nobody, finds the same members and leaves the overlay as it is |
| `ResolverLaws.SequenceKeepsSound` | resolution/resolver.py:145 | over any calls by whomever on whatever data, going on after refused and failed ones, no pair of texts is decided twice and every verdict is kept |
| `ResolverLaws.PrewarmKeepsSound` | resolution/resolver.py:197-204 | the same for the groups of a prewarming, up to the first that raises |
| `Overlay.GroupingOverlay.constructor` | resolution/resolver.py:72-74 | a new overlay groups nothing |
| `Overlay.GroupingOverlay.MergeRows` | resolution/resolver.py:76-88 | assigning, then relabelling the other ids, gives the merged partition and the id of the class |
| `Overlay.GroupingOverlay.CellsForPrincipal` | resolution/resolver.py:97-117 | filling a dictionary with durable and then live cells reads what `Reading.CellsThrough` says |
| `Overlay.RelabelledIsMerged` | resolution/resolver.py:79-87 | the two passes over the labels amount to one merge of all the classes touched |
| `Overlay.FreshIdUnused` | resolution/resolver.py:93-95 | a fresh id never equals one in use |
| `Overlay.MergeIdExactly` | resolution/resolver.py:76-95 | a merge gives the id of the first listed row that has one; with none, the next `ovl_` number, and only then does the counter rise |
| `Overlay.MergeAllFaithful` | resolution/resolver.py:76-95 | after any merges the labels are exactly the chain-classes of the merged lists, and every id in use was issued |
| `Overlay.SameIdExactly` | resolution/resolver.py:76-95 | two rows have one id exactly when a chain of overlapping merged lists links them |
| `Overlay.NeverSplits` | resolution/resolver.py:76-88 | rows once grouped together stay so, whatever is merged later |
| `Overlay.MergeOfClass` | resolution/resolver.py:76-88 | merging rows that are one class already changes nothing and gives its id |
| `Overlay.MergeAgainLater` | resolution/resolver.py:76-88 | merging a list again changes nothing, whatever was merged before it and since |
| `Reading.CellsThroughExactly` | resolution/resolver.py:97-117 | through the overlay a principal has exactly its durable cells and those of its merged rows, each once |
| `Reading.CellsThroughFails` | resolution/resolver.py:109-113 | reading raises exactly when some row is merged under the id and some stored locator does not parse |
| `Gate.PolicyRegistry.constructor` | resolution/gate.py:86-90 | the last policy given under an id is the registered one, and no other id is known |
| `Gate.PolicyRegistry.Get` | resolution/gate.py:92-102 | an unknown id is counted and gets a policy that shows and permits nothing to anyone, in all four facets |
| `Fetch.CsvAdapter.Fetch` | fetch/adapter.py:17-19 | every call is counted, whether it returns or raises |
| `Fetch.MaterialisedCache.Fresh` | fetch/cache.py:60-65 | the stored row while its time-to-live has not run out, else none |
| `Fetch.DefaultFetchLadder.ResolveValue` | fetch/ladder.py:41-64 | the four tiers: what is served, and the cache and fetch count afterwards |
| `FetchLaws.RefusedExactly` | fetch/ladder.py:43-49 | a symbolic read gives the cell's name; any other is refused exactly when there is no policy to ask, the capability has expired or the policy says no; neither touches cache or source |
| `FetchLaws.ExpiredRun` | resolution/gate.py:26-32 | after expiry no read of any run yields a value, and nothing is fetched or stored |
| `FetchLaws.FetchedExactly` | fetch/ladder.py:51-64 | an allowed read leaves the source alone exactly when a row is stored and `now < fetched_at + ttl`, and then serves it; else it reads once, serves and stores what the source says, or raises and stores nothing |
| `FetchLaws.StalenessBounded` | fetch/cache.py:60-65 | over any run, with a source that may change before every read: a value served is what the source says now, or said to an earlier permitted read of the cell less than a time-to-live ago, or stood in the cache at the start and has not run out |
| `FetchLaws.ReadExactly` | fetch/source_reader.py:40-42 | a read gives the stored field, or an empty text for a missing one; a missing source or row and a bad locator raise |
| `Fetch.RunIsDirect` | fetch/ladder.py:41-64 | every read of every run, by whomever and whenever, serves what a direct gated read would |
| `Fetch.RefusedReadsInvisible` | fetch/ladder.py:43-49 | a run ends with the cache and fetch count it would have without its refused and symbolic reads |
| `Fetch.FetchesSpaced` | fetch/ladder.py:53-63 | successive stored fetches of a cell are a time-to-live apart, for every run and clock |
| `Fetch.FetchBudget` | fetch/ladder.py:53-63 | n stored fetches of a cell within a window of length W satisfy (n - 1) * ttl <= W |
| `Fetch.AdapterBudget` | fetch/ladder.py:53-63 | where the source has the cell's row, the same bounds all of its reads that reach the adapter |
| `Fetch.FetchesCounted` | fetch/adapter.py:17-19 | over a run the counter rises by the number of reads that reached the adapter |
| `Fetch.RaisingIsNotSpaced` | fetch/ladder.py:58-62 | a run of two reads at one time that both reach the adapter, when the source raises |
| `Fetch.SpacedExactly` | fetch/ladder.py:53-63 | all reads of a cell that reach the adapter are a time-to-live apart in every run exactly when the source has its row |
| `Conflict.ConflictExactly` | fetch/conflict.py:35-50 | every value kept under the query's principal and node; agreed exactly when all are equal, else ordered exactly when all are timestamped; the first latest is the default |
| `Conflict.LatestIsFirst` | fetch/conflict.py:45 | the chosen position is the first that holds the latest timestamp |
| `Join.CrossSourceQuery` | fetch/join.py:35-62 | the loop with its early refusal, and its effects on cache, fetch count and unknown lookups |
| `Join.TruthsAt` | fetch/join.py:53-60 | each joined value is the field its cell locates, under that cell's source, and is timestamped by the row's `updated_at` if the source is crm_a, by its `last_touch` if crm_b, and by nothing otherwise |
| `Join.ReadableExactly` | fetch/join.py:50-56 | which cells can be joined: the row is at the source and, for crm_a and crm_b, at the timestamps' reader; else a value error for a bad locator or a key error |
| `Join.AllowedExactly` | fetch/join.py:42-49 | a cell may be read exactly when its policy is registered and permits it and the capability has not expired by then |
| `Join.ExpiredJoin` | fetch/join.py:42-49 | after expiry a join over any cell is refused at the first, whatever is cached, and reads nothing |
| `Join.TurnFetchesExactly` | fetch/join.py:42-51 | a turn of the join leaves the source alone exactly when it is symbolic, not permitted, or finds a row that has not run out when the ladder looks |
| `Join.LookupsExactly` | fetch/join.py:45 | each cell that was looked at and has an unknown policy is counted once |
| `Join.JoinExactly` | fetch/join.py:39-62 | over a coherent cache: the first cell that is denied or cannot be read decides, by a refusal or its error; else one source-true value per cell in order |
| `Join.TwoWorlds` | fetch/join.py:42-51 | worlds that differ in values, caches and fetch counts refuse alike, fail alike, or join as many values |
| `Join.TwoWorldQueries` | fetch/join.py:35-62 | the same for whole queries over one store and one overlay |
| `Demo.SourceRecords` | demo.py:90-93 | one record for each row, with its email or none; a row without its key raises |
| `Demo.SeedAndOnboard` | demo.py:85-104 | groups from the rows of all sources, then each source in turn: table, proposals and reports, also where one raises; from an empty table, cells grouped exactly by shared email |
| `DemoLaws.OnboardEachCompletes` | demo.py:96-103 | sources onboarded in turn without an error write what each would write alone |
| `DemoLaws.ReportsExactly` | demo.py:96-103 | each source has the report of its own run |
| `DemoLaws.SeededGroupsByEmail` | demo.py:85-104 | every stored cell is of some row, and two are grouped together exactly when the emails of their rows, lower-cased and without the white space around, are one and not empty |
| `Demo.Resolve` | demo.py:110-111 | what the resolution returns, and the overlay it leaves |
| `Demo.ResolveThenJoin` | demo.py:119-127 | one overlay through both steps; along any overlay the outcome tells of the cells durably under the component's id and of the rows chained to it, along a fresh one of exactly the component's: their fields, their timestamps, and the status and default of these; refused exactly without a live, rightly scoped capability, and then nothing is fetched |
| `DemoLaws.ThroughExact` | resolution/resolver.py:97-117 | what is read under an id: first the cells durably under it, then those of its live rows, each in id order, and no others |
| `DemoLaws.MergedRowsExactly` | resolution/resolver.py:76-88 | after a merge the id is that of exactly the rows chained to the component by merged lists |
| `DemoLaws.MergedJoinExactly` | fetch/join.py:35-62 | after a merge into any overlay, the join tells of exactly those cells |
| `DemoLaws.CellsOfExact` | resolution/resolver.py:111-116 | the cells of the node in some rows: exactly those stored, in the order of their ids |
| `DemoLaws.FreshReads` | resolution/resolver.py:97-117 | on a fresh overlay a merged component reads as exactly that list |
| `DemoLaws.ResolvedJoinExactly` | fetch/join.py:35-62 | after a merge into a fresh overlay, the join tells of exactly those cells in that order, and its status and default of their values |
| `DemoLaws.EndToEnd` | demo.py:119-127 | resolve then join, with answers that do not vary: along any overlay the component is exactly the rows linked to the first candidate, and along a fresh one the outcome tells of exactly their cells |
| `DemoLaws.EndToEndAsRemembered` | demo.py:119-127 | the same with answers that vary but no failure, by the verdicts in memory afterwards |
| `DemoLaws.TriedDenied` | resolution/gate.py:26-46 | a resolution is denied exactly when the capability has expired, has another purpose, or lacks the clearance |
| `Audit.SqliteAuditSink.AppendEntry` | audit/sink.py:62-72 | one row is added, chained to the last |
| `Audit.SqliteAuditSink.VerifyChain` | audit/sink.py:98-108 | true exactly when every row carries its predecessor's hash and its own recomputed one |
| `Audit.AppendExactly` | audit/sink.py:62-72 | a row carries the entry hash of the row before, the first one 64 zeros, and its own hash covers both |
| `Audit.AppendsVerify` | audit/sink.py:62-72 | a log written by appends alone verifies, and holds the entries in order |
| `Audit.AppendKeepsVerdict` | audit/sink.py:62-72 | no append breaks a good log or mends a bad one |
| `Audit.HashesDistinct` | audit/sink.py:98-108 | in a verifying log no entry hash occurs twice, and none is the genesis value |
| `Audit.DrawnRowsArePrefix` | audit/sink.py:98-108 | rows deleted, repeated or reordered: what still verifies is a prefix of the log |
| `Audit.DrawnVerifiesExactly` | audit/sink.py:98-108 | and every prefix does verify: rows of the log, as they were, verify exactly when they are a prefix |
| `Audit.LastHashCommits` | audit/sink.py:110-114 | two verifying logs with one last hash are the same log |
| `Audit.VerifiesExactly` | audit/sink.py:98-108 | a log verifies exactly when it is what appending its own entries would have written |
| `Audit.RechainedVerifies` | audit/sink.py:98-108 | whatever entries replace those from some row on, the log verifies once the hashes are written anew |
| `Audit.RechainedDeletion` | audit/sink.py:98-108 | for every hash, a log with an entry deleted before others that verifies and is no prefix of the log |
| `Audit.RechainedShows` | audit/sink.py:110-114 | such a tampering shows in the last hash, exactly when an entry has changed |
| `Audit.AnchoredExactly` | audit/sink.py:110-114 | verifying with the last hash known from elsewhere accepts exactly the log itself |
| `Audit.EditDetected` | audit/sink.py:98-108 | one row rewritten and the others left passes exactly when it is the last and carries the right hashes |
| `Audit.InsertDetected` | audit/sink.py:98-108 | one row put in and the others left passes exactly when it is put at the end and carries the right hashes |
| `Utf8.DecodeOfEncode` | locators.py:17 | decoding undoes encoding for every text (section 3 of RFC 3629) |
| `Utf8.DecodeOneIsEncoded` | locators.py:24 | what is not replaced is the one encoding of a character: no overlong form, no surrogate |
| `Utf8.IllFormedExactly` | locators.py:24 | where no character stands, one replacement is given for the longest start of one, or for the first byte |
| `Locators.UnquoteOfQuote` | locators.py:17-24 | percent-decoding undoes percent-encoding (sections 2.1 and 2.3 of RFC 3986) |
| `Locators.UnreservedExactly` | locators.py:17 | the characters that stand for themselves are exactly the unreserved ones (section 2.3 of RFC 3986) |
| `Locators.QuoteEscapes` | locators.py:17 | any other byte becomes a percent sign and two upper-case hexadecimal digits, the high one first |
| `Locators.EscapeReads` | locators.py:24 | an escape, in either case, reads as its byte |
| `Locators.UnquoteIsRuns` | locators.py:24 | the early return for text without a percent sign is only faster |
| `Locators.RoundTrip` | locators.py:9-27 | parsing inverts minting for all non-empty components, ':' and '%' included; minting fails only on an empty one |
| `Locators.MintingIsInjective` | locators.py:9-17 | one locator is minted for one triple |
| `Locators.MintedAlphabet` | locators.py:17 | exactly two separators, and otherwise only unreserved characters and '%' |
| `Locators.MintedPlain` | locators.py:9-17 | unreserved components are joined as they are, the source first and the field last |
| `Locators.ParsesExactly` | locators.py:19-27 | accepted exactly when there are two separators and no empty part |
| `Locators.CanonicalForm` | locators.py:9-27 | minting again what an accepted locator parses to gives one canonical locator for the place it names |
| `Locators.BrokenEscapeParses` | locators.py:19-27 | a locator with a broken escape, `a%zz:b:c`, is accepted and the escape stands for itself |
| `Router.ConceptRouter.Create` | onboarding/ontology_router.py:33-43 | construction succeeds exactly when every parent and every source's concept is known, and then keeps the hierarchy and the sources as given |
| `Router.ConceptRouter.AncestorsOf` | onboarding/ontology_router.py:59-66 | the loop terminates on every hierarchy, cyclic ones included, with the upward walk |
| `Router.ConceptRouter.DescendantsOf` | onboarding/ontology_router.py:68-74 | the loop gathers the inverse of the ancestors |
| `Router.AncestorsExactly` | onboarding/ontology_router.py:59-66 | the ancestors are exactly what parent links reach |
| `Router.WalkNoRepeats` | onboarding/ontology_router.py:59-66 | no ancestor is listed twice |
| `Router.AncestorsInOrder` | onboarding/ontology_router.py:59-66 | the ancestors are the concept, its parent, and so on up, to a root or where the hierarchy comes round |
| `Router.SourcesExactly` | onboarding/ontology_router.py:95-104 | a concept's sources are those whose concept leads up to it, in order and without repeats |
| `Router.SourcesWiden` | onboarding/ontology_router.py:95-104 | they are among those of each ancestor |
| `Router.SharedSourceRelates` | onboarding/ontology_router.py:95-104 | two concepts share a source only if one is an ancestor of the other |
| `Router.AmbiguousExactly` | onboarding/ontology_router.py:109-113 | a concept is ambiguous exactly when two of its sources hold different concepts |
| `Router.ConceptExactly` | onboarding/ontology_router.py:77-92 | the first word is the concept if it names one below the root, and the name then has exactly the other words; any other query is under the root with its trimmed text |
| `Descent.CandidateExactly` | resolution/descent.py:81-85 | a cell surfaces exactly when it is stored, its node is `person`, and its source's concept leads up to the one asked for |
| `Descent.SurfaceFailsExactly` | resolution/descent.py:81-85 | a descent raises exactly when the locator of some stored cell of the node `person` does not parse |
| `Descent.CandidatesWiden` | resolution/descent.py:75-86 | what surfaces for a concept surfaces for each of its ancestors |
| `Descent.SharedCandidateRelates` | resolution/descent.py:75-86 | a cell surfaces for two concepts only if one is an ancestor of the other |
| `Descent.QueryExactly` | resolution/descent.py:69-97 | a query is routed by its concept, `person` by default; it is under-specified exactly when its sources hold different concepts; its references are those of exactly the cells that surface for it, in id order |
| `Store.MasterTableStore.PutCell` | twin_core/store.py:61-68 | the cell is stored and an existing grouping kept |
| `Store.MasterTableStore.PutCellFor` | twin_core/store.py:70-115 | the upsert, in which a missing grouping keeps the one already there |
| `Store.MasterTableStore.SetGrouping` | twin_core/store.py:117-128 | only the grouping of a known cell changes, also to none |
| `Store.TracePresence` | twin_core/store.py:70-128 | after any trace of writes, the cells are those ever put |
| `Store.TraceContent` | twin_core/store.py:70-115 | each cell's content is its last put |
| `Store.TraceGrouping` | twin_core/store.py:70-128 | each cell's grouping is that of its last effective grouping write |
| `Store.TraceNeverGrouped` | twin_core/store.py:61-115 | a cell that no write grouped is ungrouped |
| `Masters.ReadsPartition` | twin_core/store.py:131-167 | reading every principal and then the ungrouped cells reads each cell once, and no other |
| `Masters.ReadsInOrder` | twin_core/store.py:131-159 | every read is in cell id order without repeats |
| `Text.LeExactly` | twin_core/store.py:150-152 | the order of ids is decided where they first differ, and a start of an id comes before it |
| `Masters.CellsForExact` | twin_core/store.py:131-135 | a principal's cells are exactly those so grouped |
| `Masters.BuildGrid` | twin_core/masters.py:28-41 | the nested dictionaries hold, for each grouped principal and node, the ordered list of their cells |
| `Masters.GridAgreesWithStore` | twin_core/masters.py:28-41 | the grid and the store's own queries give the same principals and the same lists |
| `Masters.GridHoldsEachOnce` | twin_core/masters.py:28-41 | a grouped cell stands under its own principal and node once, and nowhere else |
| `Inversion.BuildCells` | twin_core/inversion.py:22-55 | one value-free cell for each field, in order, or the first error |
| `Inversion.MintedCellLocates` | twin_core/inversion.py:43-54 | a minted cell holds no value and its locator tells its source, row and field back |
| `Inversion.MintsExactly` | twin_core/inversion.py:22-55 | a cell is minted exactly when no part of its place is empty and it has a node |
| `Inversion.NormalisesExactly` | twin_core/inversion.py:58-60 | a normalised email is the lower case of the text between the white space around it |
| `Text.TrimExactly` | twin_core/inversion.py:60 | trimming gives back what stands between the white space at both ends |
| `Inversion.SeedGrouping` | twin_core/inversion.py:63-85 | the two loops give the grouping of `Inversion.Seeded` |
| `Inversion.SeededExactly` | twin_core/inversion.py:63-85 | a row is grouped exactly when its email is not blank, by its normalised email alone |
| `Inversion.SharedPrincipalExactly` | twin_core/inversion.py:63-85 | two rows get one principal exactly when they share a non-blank normalised email |
| `Inversion.SharedPrincipalByText` | twin_core/inversion.py:63-85 | of emails `p+u+q` and `p'+v+q'`, with blank `p`, `q`, `p'`, `q'` and trimmed `u`, `v`, the rows get one principal exactly when `lower(u) == lower(v)` and that is not empty |
| `Onboarding.Onboarder.OnboardSource` | onboarding/onboard.py:81-103 | the field loop's report, proposals and table, up to the first error |
| `Onboarding.Onboarder.ApplyProposal` | onboarding/onboard.py:66-78 | an auto field is minted and any other proposed, with report, control plane and table |
| `Onboarding.Onboarder.MintAuto` | onboarding/onboard.py:55-63 | one counted upsert for each row, up to the first error |
| `Onboarding.Onboarder.ClassifyDeferred` | onboarding/onboard.py:106-117 | a deferred field goes the same way as an eager one, under a report of its own |
| `OnboardingLaws.FieldsPartition` | onboarding/onboard.py:90-101 | each field ends in exactly one of auto, deferred and proposed, and no other field is in any |
| `OnboardingLaws.SampleExactly` | onboarding/reader_gate.py:28-51 | the classifier sees the first values of the column that are not blank, three at most, and none behind a closed gate |
| `OnboardingLaws.KindExactly` | onboarding/onboard.py:90-101 | a field of a named source is deferred exactly when the run is lazy and the classifier defers it; else it is minted exactly when its band is auto, under the proposed node |
| `OnboardingLaws.ReportExactly` | onboarding/onboard.py:66-103 | a completed run reports each of its fields by the kind it turned out to be |
| `OnboardingLaws.WritesCounted` | onboarding/onboard.py:55-63 | a completed run counts and writes rows times auto fields |
| `OnboardingLaws.WritesServe` | onboarding/onboard.py:55-63 | every write is that of some row for some auto field, grouped as the row is |
| `OnboardingLaws.RowsServed` | onboarding/onboard.py:55-63 | every row is written for every auto field |
| `OnboardingLaws.WritesDistinct` | onboarding/onboard.py:55-63 | with distinct rows and fields no cell id is written twice |
| `OnboardingLaws.TableExactly` | twin_core/store.py:70-115 | what a list of upserts to distinct ids leaves in the table, and that nothing else changes |
| `OnboardingLaws.RerunChangesNothing` | onboarding/onboard.py:81-103 | the same upserts again leave any table as it is |
| `OnboardingLaws.ProposedExactly` | onboarding/onboard.py:75-78 | a completed run leaves for each field it proposes what the classifier proposed, and the other proposals as they were |
| `OnboardingLaws.DeferralOnlyDelays` | onboarding/classify.py:201-204 | a lazy run and then the deferred fields, in any order, leave the table and the proposals that an eager run leaves |
| `SeedLaws.CellsExactly` | demo.py:85-104 | from an empty table, the stored rows are exactly those of each source's rows and auto fields, each grouped as its row is |
| `SeedLaws.OnboardedAgain` | demo.py:96-103 | onboarding every source again leaves the cells as they are |
| `SeedLaws.GroupedByEmailExactly` | demo.py:85-104 | two written cells are grouped together exactly when the records of their rows share a non-blank normalised email |

## Left out

- Anthropic calls, embeddings and the cosine: foreign code; similarity and verdicts are parameters, and similarity is a real number (no NaN, no rounding).
- Field classification and its verdict cache (`onboarding/classify.py`): an oracle for the band, the node and the deferral of each field.
- SQLite, CSV, YAML and JSON: tables are maps read in key order, sources are immutable maps.
- Timestamp text: parsing is a parameter, and timestamps are totally ordered, so the error of comparing naive with aware ones does not arise; the rounding of `ttl_seconds` as a float is not modelled.
- SHA-256: the audit hash is a parameter without collisions among the payloads at hand and never genesis on them; cell ids and group ids are parameters, injective where a law needs it; a capability's digest is symbolic.
- Unicode case mapping is the parameter `lower`; strings hold no lone surrogates, which the encoder would reject.
- Policy predicates and the similarity are pure and total; an adjudicator's answer, when it gives one, is a verdict.
- The projection (`resolution/projection.py`), also inside the descent, and approving or rejecting proposals: their facts follow from one branch.
- Audit entries of onboarding reads and of classification: one append each, with no effect on the table.
- `overlay is None` in `resolve` and missing collaborators: types here are non-null, except the optional audit sink.
- The listing reads `tail`, `for_principal`, `columns` and `all_with_grouping`, and logging: easy members.
- Two readers over one set of files in the demo: the resolver and the join share one here.
- The report of an onboarding run is a field of `Onboarder`, not a return value.
- The schema locator of the sampled read is modelled by its failure on an empty source or field only.
- `Join.TwoWorlds`: the two worlds have the same sources and rows, since a missing row raises and would end one join before a later refusal.
- `SeedLaws.OnboardedAgain`: the second onboarding gets the verdicts of the first.
- `ResolverLaws.MemoryShowsExactly`: for two candidates; in a longer list a call that is spared also renumbers the calls after it, and each of those may answer otherwise.
