# AgentBBS kernels, verified

A Dafny model of the decision-making kernels of AgentBBS, a signed, federated bulletin board for agents.
Each module follows one source file or one concern that several files share.

| area | modules |
|---|---|
| arena ranking | `Pareto`, `Retort`, `RetortOrder`, `RetortBoard` |
| federation | `Log`, `Store`, `Peer`, `WebTrust`, `Federation`, `Promotion`, `Federator` |
| identity continuity and reputation | `Rotation`, `Wilson`, `Reputation`, `Credential` |
| gated runs | `Approval`, `Playbook`, `Autopilot` |
| vector store | `Rvf`, `RvfLayout`, `VectorStore`, `Lsh`, `LshRecall` |
| signed encodings, control messages, rate limit | `Bytes`, `Crypto`, `Board`, `Readings`, `ControlMessages`, `RateLimit` |
| shared | `Sorting`, `Wrappers` |

State that the program mutates is a class here (`WebOfTrust`, `RotationChain`, `ReputationLedger`, `CredentialStore`,
`MemoryStore`, `RedbStore`, `PeerBook`, `Federator`, `RateLimiter`, `ApprovalGate`, `PlaybookRun`, `App`, `Cursor`,
`RvfStore`, `LshIndex`), its loops are loops, and each method is tied to a function or predicate about which the
properties are then proved. Runs (interleavings of operations) are folds over lists of operations.

Cryptography is a parameter: `Scheme` carries a validity predicate, a content hash, a timestamp rendering and which
32-byte keys are points of the curve. Results
about identity require `Scheme.Sound()`, which says that the hash is injective and that timestamps render without
newlines and injectively; `Readings.Dated` adds, for the one result that needs it, that no timestamp begins like a
length prefix. Scores are exact reals, a missing cost is an explicit infinity, and the square root is any
function with the square root's defining law.

`dafny verify dfyconfig.toml` checks everything.

## Findings: what the code does not guarantee

Each of these is proved in both directions, or by a concrete counterexample with the exact condition beside it.

- The Retort board is documented as deterministic. Its rows, ranks, tiers and figures are. The insight wording depends
  on hash-map order when equally cheap frontier dominators would be described differently
  (`RetortOrder.BoardIsDeterminedExactlyWhenTiesAgree`).
- A dominated row is meant to cite a frontier row that dominates it. That holds on every selection of a board's rows
  exactly when dominance, which has slack, is transitive on them
  (`Pareto.FrontierCoversEverySelectionExactlyWhenTransitive`); coverages and costs that are equal or more than the
  slack apart are enough (`Pareto.SpreadPointsAreTransitive`).
- "Length-prefixed so embedded newlines can't forge fields" does not hold. Newlines in a post's board, parent or
  subject move the field boundaries, and even under a clean header a text that ends in a newline, a timestamp line and
  a length-prefixed text reads as another body by the same author, under the same id and signature
  (`Readings.BodyHasOneReadingExactlyWhen`, `Readings.CleanBodyHasOneReadingExactlyWhenTextIsUnspliced`,
  `Readings.TextReadsAsAnotherBoard`). The convergence results therefore carry a condition, which holds for collections
  in which every message has newline-free header fields. A parent spelled `-` is read as no parent.
- Ingest is independent of order and repetition exactly when the envelopes' first messages under each new id agree
  (`Federation.OrderIsIrrelevantExactlyWhenLeadersAgree`); two envelopes can disagree
  (`Federation.UncleanPostHasRacingEnvelopes`).
- `resolve` is idempotent exactly when the walk settles within its 64 hops
  (`Rotation.ResolveIsIdempotentExactlyWhenSettled`).
- The rate limiter's window is fixed, not sliding: an interval of one window's length can see up to `2*max - 1`
  allowed events, and never more than `max` exactly when `max` is at most 1 or the window at most one millisecond
  (`RateLimit.RunStaysInBound`, `RateLimit.SlidingBoundIsReached`, `RateLimit.QuotaHoldsForIntervalsExactlyWhen`).
- A control message from another key cannot hide or replace a post by itself, but it displaces the author's own entry:
  it can bring a retracted post back or revert an edit, and does so exactly under the stated conditions
  (`ControlMessages.ForeignRetractIsHarmlessExactlyWhenNotRetracted`,
  `ControlMessages.ForeignEditIsHarmlessExactlyWhen`).
- "A query equal to a stored vector always finds it" holds exactly while fewer earlier records share its signature than
  the budget allows and fewer than `top_k` of those score as well (`LshRecall.EqualVectorIsFoundExactly`).
  "Identical to the exact scan" holds for scores always, for the ranked records exactly when ties follow distance
  (`Lsh.FullBudgetIsIdenticalExactlyWhenTiesFollow`).
- One anti-entropy exchange yields the union of the replicas exactly when no id of the sender's board is held under
  another board by the receiver (`Federation.UnionExactlyWhenNoStrays`), which can happen
  (`Federation.UncleanPostHasAVerifiedStray`).

## Model

| member | source | states |
|---|---|---|
| `Pareto.DominanceIsNotTransitive` | crates/agentbbs-arena/src/pareto.rs:29-34 | The slack of 1e-9 makes dominance intransitive: three concrete points where A beats B, B beats C and A does not beat C. |
| `Pareto.DominanceIsAcyclic` | crates/agentbbs-arena/src/pareto.rs:29-34 | Dominance has no cycles of any length all the same: along every chain the pair (finite before infinite cost, coverage minus cost) strictly rises. |
| `Pareto.FrontIsNeverEmpty` | crates/agentbbs-arena/src/pareto.rs:46-60 | Any non-empty remainder has a non-empty front, by the potential that rises along dominance, so the fallback for an empty one never runs. |
| `Pareto.TierIsLongestChain` | crates/agentbbs-arena/src/pareto.rs:37-66 | Any tiering satisfying the loop's specification assigns each point exactly the length of the longest dominance chain ending at it. |
| `Pareto.TieringIsUnique` | crates/agentbbs-arena/src/pareto.rs:37-66 | The points alone decide the tiers. |
| `Pareto.TiersFollowRearrangement` | crates/agentbbs-arena/src/pareto.rs:37-66 | Permuting the points permutes the tiers and does nothing else. |
| `Pareto.NondominatedTiers` | crates/agentbbs-arena/src/pareto.rs:37-66 | The peeling loop terminates, every dominator ends in a strictly lower tier, and every tier past the first has a dominator exactly one tier down. |
| `Retort.CollectBest` | crates/agentbbs-arena/src/retort.rs:741-754 | For each stack the map holds the first of its highest-scoring submissions to this benchmark, and nothing else. |
| `Retort.BestIsDetermined` | crates/agentbbs-arena/src/retort.rs:741-754 | The submission list alone decides that map. |
| `Retort.InsightFor` | crates/agentbbs-arena/src/retort.rs:872-925 | The text cites the first of the cheapest frontier dominators, says none exists exactly when none does, and on the frontier compares with the anchor. |
| `Retort.RankRows` | crates/agentbbs-arena/src/retort.rs:774-853 | From rows in any order, a board over the unique tiering, each row numbered and commented; `RetortBoard` says in the submissions' figures what its order, figures and sentences are. |
| `Retort.BoardIsComplete` | crates/agentbbs-arena/src/retort.rs:774-853 | Ranks are 1..n, tiers never decrease, and every stack appears once. |
| `Retort.SecondTierCitesTheFrontier` | crates/agentbbs-arena/src/retort.rs:882-895 | Every tier-2 row cites a frontier row that dominates it, the first of the cheapest. |
| `Retort.DominatedRowsCiteTheFrontierWhenTransitive` | crates/agentbbs-arena/src/retort.rs:882-902 | Where dominance is transitive on the board's points, every dominated row of any tier cites a frontier row that dominates it. |
| `Pareto.FrontierCoversEverySelectionExactlyWhenTransitive` | crates/agentbbs-arena/src/retort.rs:882-902 | Every dominated point of every selection of the points has a frontier dominator if and only if dominance is transitive on the points. |
| `Pareto.SpreadPointsAreTransitive` | crates/agentbbs-arena/src/pareto.rs:29-34 | Dominance is transitive when any two coverages, and any two finite costs, are equal or more than the slack apart. |
| `Retort.ThirdTierMayHaveNoFrontierDominator` | crates/agentbbs-arena/src/retort.rs:882-902 | Without that a tier-3 row may have no frontier dominator: three concrete points. |
| `RetortOrder.SameOrder` | crates/agentbbs-arena/src/retort.rs:788-806 | Any two orders in which the hash map may yield its rows give the same tiers per row and the same board order. |
| `RetortOrder.BoardIgnoresMapOrder` | crates/agentbbs-arena/src/retort.rs:737-853 | Boards from two map orders agree on every row, rank, tier and figure. |
| `RetortOrder.BoardIsDeterminedExactlyWhenTiesAgree` | crates/agentbbs-arena/src/retort.rs:737-905 | The whole board, wording included, is independent of map order if and only if equally cheap cheapest dominators of each row would be described alike. |
| `RetortOrder.TiesThatDisagree` | crates/agentbbs-arena/src/retort.rs:882-895 | Whenever that condition fails, another map order yields a different board. |
| `RetortOrder.TiesCanDisagree` | crates/agentbbs-arena/src/retort.rs:737-895 | The condition does fail end to end: one list of three submissions has two different boards, depending on the map order alone. |
| `RetortOrder.DistinctCostsSuffice` | crates/agentbbs-arena/src/retort.rs:882-895 | It holds when no two frontier rows of equal cost differ in coverage. |
| `RetortBoard.RankStacks` | crates/agentbbs-arena/src/retort.rs:737-853 | End to end, including the arbitrary map order: a board of the best submissions, ranked from 1, tiers never falling, and within a tier coverage never rising. |
| `RetortBoard.BoardIsInOrder` | crates/agentbbs-arena/src/retort.rs:788-806 | Down a board tiers never fall; within a tier coverage never rises; at equal coverage no row stands above a cheaper one and none without a cost above one with it; what is left is in byte order of the handles. |
| `RetortBoard.RowIsOfTheBestSubmission` | crates/agentbbs-arena/src/retort.rs:741-754 | Behind each row stands the first of its stack's highest-scoring submissions to the benchmark. |
| `RetortBoard.RowShowsItsSubmission` | crates/agentbbs-arena/src/retort.rs:814-853 | The row shows that submission's figures, and neutral ones where its detail is missing. |
| `RetortBoard.EveryStackIsRankedOnce` | crates/agentbbs-arena/src/retort.rs:737-853 | Every stack with a submission to the benchmark has exactly one row. |
| `RetortBoard.FrontierRowsAreUnbeaten` | crates/agentbbs-arena/src/pareto.rs:29-66 | A row is in tier 1 exactly when no other is as accurate and as cheap up to 1e-9 and better by more than that on one side, a missing cost being dearer than any. |
| `RetortBoard.AnchorIsTheBestFrontierRow` | crates/agentbbs-arena/src/retort.rs:808-813 | The anchor is a tier-1 row of greatest coverage, the cheapest of those; there is one exactly when there are rows. |
| `RetortBoard.FirstRowIsMostReliable` | crates/agentbbs-arena/src/retort.rs:903-912 | The first row is on the frontier, and if its cost is known its sentence calls it most reliable. |
| `RetortBoard.FrontierRowSays` | crates/agentbbs-arena/src/retort.rs:903-925 | A frontier row within 1e-9 of the anchor on both axes is called most reliable; any other gets the rounded points it gives up, the percentage saved and the cost ratio. |
| `RetortBoard.DominatedRowSays` | crates/agentbbs-arena/src/retort.rs:882-902 | A dominated row is described by a cheapest frontier dominator whenever there is one: as reliable within 0.02, otherwise by the rounded points. |
| `RetortBoard.PctLowerIsNearestPercentage` | crates/agentbbs-arena/src/retort.rs:928-933 | Zero unless cheaper, otherwise the nearest whole percentage. |
| `Bytes.BytesLeIsLexicographic` | crates/agentbbs-arena/src/retort.rs:805-805 | Handles compare byte by byte: a prefix comes first, otherwise the first difference decides. |
| `RetortOrder.RankingIsAFunctionOfTheSubmissions` | crates/agentbbs-arena/src/retort.rs:728-737 | Two runs over the same submissions agree on everything but insight wording. |
| `WebTrust.EndorsementBytesAreInjective` | crates/agentbbs-federation/src/webtrust.rs:29-43 | Different endorsements never share signing bytes. |
| `WebTrust.WebOfTrust.Add` | crates/agentbbs-federation/src/webtrust.rs:78-86 | A verified endorsement adds its edge once; a forged one changes nothing; verified means signed by the endorser over tag, both keys and time. |
| `WebTrust.AddEdgeAddsOne` | crates/agentbbs-federation/src/webtrust.rs:78-86 | Adding an edge adds exactly that endorsement to the relation. |
| `WebTrust.WalkIsExact` | crates/agentbbs-federation/src/webtrust.rs:90-117 | When the breadth-first invariant meets an empty queue, the labels are exactly the shortest distances within the bound. |
| `WebTrust.WebOfTrust.TrustedFrom` | crates/agentbbs-federation/src/webtrust.rs:90-117 | On any graph, with cycles, self-endorsements and repeated roots, the walk terminates and maps exactly the non-roots within the bound to their shortest distance from the root set. |
| `WebTrust.WebOfTrust.IsTrusted` | crates/agentbbs-federation/src/webtrust.rs:120-124 | True exactly for the non-roots with an endorsement path of at most that many steps from a root; a root itself is not in the answer. |
| `WebTrust.ReachGrows` | crates/agentbbs-federation/src/webtrust.rs:78-117 | More endorsements never take reachability away. |
| `Rotation.RotationChain.Add` | crates/agentbbs-core/src/rotation.rs:31-90 | A self-link is malformed; any other must carry both keys' signatures over the tag, both keys and the time; the first link of an old key wins. |
| `Rotation.RotationChain.Current` | crates/agentbbs-core/src/rotation.rs:94-108 | The guarded 64-step walk returns the key at its first stop (a terminal key or a repeat), or after 64 hops. |
| `Rotation.ChainResolvesToItsEnd` | crates/agentbbs-core/src/rotation.rs:94-108 | A terminal key reached within 64 hops is the answer. |
| `Rotation.CycleResolvesToItsEntry` | crates/agentbbs-core/src/rotation.rs:94-108 | A cycle whose tail and length together fit in 64 hops resolves to its entry key. |
| `Rotation.ResolveIsIdempotentExactlyWhenSettled` | crates/agentbbs-core/src/rotation.rs:92-108 | Resolving twice equals resolving once if and only if within 64 hops the walk reaches a terminal key or a cycle of length at most 64. |
| `Rotation.LongChainsDoNotSettle` | crates/agentbbs-core/src/rotation.rs:97-108 | Every chain with more than 64 links before its end breaks idempotence. |
| `Rotation.LinkRedirects` | crates/agentbbs-core/src/rotation.rs:86-108 | Retiring a current key redirects exactly the keys that resolved to it, to where its successor resolves. |
| `Rotation.LinkMergesTwoClasses` | crates/agentbbs-core/src/rotation.rs:86-108 | Such a link merges the retired key's identity class with its successor's and leaves all other classes apart. |
| `Rotation.MergedClass` | crates/agentbbs-core/src/rotation.rs:86-108 | The successor's new class is the disjoint union of the two old ones. |
| `Wilson.WilsonIsLeastRoot` | crates/agentbbs-core/src/reputation.rs:43-54 | Over exact reals the score is the least root of (p-x)^2 = (z^2/n) x(1-x), lies between 0 and the rate p, and clamping at zero never changes it. |
| `Wilson.SuccessNeverLowers` | crates/agentbbs-core/src/reputation.rs:43-54 | Adding any positive weight of success never lowers the bound. |
| `Wilson.FailureNeverRaises` | crates/agentbbs-core/src/reputation.rs:43-54 | Adding any positive weight of failure never raises it. |
| `Wilson.AllOrNone` | crates/agentbbs-core/src/reputation.rs:43-54 | With nothing but successes the bound is n / (n + 1.96^2), with none it is zero. |
| `Reputation.SumsAreOrdered` | crates/agentbbs-core/src/reputation.rs:69-94 | With positive weights, 0 <= successes <= total for any selection of agents. |
| `Reputation.RecordingMovesScoresTheRightWay` | crates/agentbbs-core/src/reputation.rs:69-94 | Recording a success never lowers its agent's score, a failure never raises it, and no other agent's score moves. |
| `Reputation.ReputationLedger.Record` | crates/agentbbs-core/src/reputation.rs:69-73 | Non-positive weights are dropped; others are appended. |
| `Reputation.ReputationLedger.Score` | crates/agentbbs-core/src/reputation.rs:76-94 | The running sums equal the recursive totals the other results speak of. |
| `Reputation.ReputationLedger.ScoreThrough` | crates/agentbbs-core/src/reputation.rs:100-126 | The same for all keys that currently resolve to one identity. |
| `Reputation.OneMoreOutcome` | crates/agentbbs-core/src/reputation.rs:76-126 | An outcome's weight counts for its own agent alone, or through rotations for exactly the keys of that agent's identity, and as success only if it was one. |
| `Reputation.ScoreSays` | crates/agentbbs-core/src/reputation.rs:87-126 | Rate times total is the successes, the score is their Wilson bound, and the record names the agent or its current key. |
| `Reputation.ScoreViaIsPerIdentity` | crates/agentbbs-core/src/reputation.rs:100-126 | Keys that resolve alike get the same standing in every field. |
| `Reputation.FoldedScoresConserveWeight` | crates/agentbbs-core/src/reputation.rs:100-126 | Summed over one representative per identity, totals and successes equal the ledger's: nothing is lost or counted twice. |
| `Reputation.RotationAddsStandings` | crates/agentbbs-core/src/reputation.rs:96-126 | After a rotation the successor's sums are exactly the sum of both classes' before it. |
| `Reputation.ReputationLedger.Ranking` | crates/agentbbs-core/src/reputation.rs:130-149 | Every observed agent once, with its score, best first, ties by key. |
| `Reputation.RankingIsBestFirst` | crates/agentbbs-core/src/reputation.rs:136-147 | Scores never rise down a ranking; among equal scores weights never rise; what is left is in order of the hex id. |
| `Credential.ClaimBytesAreInjective` | crates/agentbbs-core/src/credential.rs:36-61 | Different credentials never share signing bytes, expiry included. |
| `Credential.CredentialStore.Add` | crates/agentbbs-core/src/credential.rs:36-119 | Only a credential signed by its issuer over subject, claim, issuer, issue time and expiry is stored; a forged one changes nothing. |
| `Credential.CredentialStore.Holds` | crates/agentbbs-core/src/credential.rs:133-148 | True exactly when a credential on file has this subject and claim, an accepted issuer and validity now. |
| `Credential.OneMoreCredential` | crates/agentbbs-core/src/credential.rs:133-148 | An appended credential makes a claim held exactly if its subject and claim are the ones asked for, its issuer is accepted and signed it, and it has not expired; otherwise it changes no answer. |
| `Credential.ClaimsLastUntilExpiry` | crates/agentbbs-core/src/credential.rs:97-148 | A claim is held later exactly when a credential that grants it now has not expired by then, and further credentials never take one away. |
| `Credential.ForgeriesDoNotCount` | crates/agentbbs-core/src/credential.rs:85-148 | Dropping every credential that does not verify changes no answer. |
| `Credential.CredentialStore.HoldsVia` | crates/agentbbs-core/src/credential.rs:155-170 | True exactly when a credential on file has this claim, a subject that resolves to the same key, an accepted issuer and validity now. |
| `Credential.OneMoreCredentialVia` | crates/agentbbs-core/src/credential.rs:155-170 | The same through rotations, the subject being any key of the identity. |
| `Credential.ClaimsOfAnIdentity` | crates/agentbbs-core/src/credential.rs:155-170 | An identity holds a claim exactly when some key of its class does. |
| `Credential.HasClaimViaIsPerIdentity` | crates/agentbbs-core/src/credential.rs:155-170 | Keys that resolve alike get the same answer. |
| `Credential.RotationUnitesClaims` | crates/agentbbs-core/src/credential.rs:150-170 | After a rotation the successor holds exactly what either class held before. |
| `Credential.TrustedViaIsPerIdentity` | crates/agentbbs-federation/src/webtrust.rs:129-143 | Keys that resolve alike are trusted alike. |
| `Credential.IsTrustedVia` | crates/agentbbs-federation/src/webtrust.rs:129-143 | The rotation-aware trust query decides that predicate. |
| `Crypto.HexIsInjective` | crates/agentbbs-core/src/identity.rs:52-54 | Different keys have different hex renderings. |
| `Crypto.ComposeIsInjective` | crates/agentbbs-core/src/approval.rs:29-38 | Length-prefixed composition never confuses two lists of byte strings, whatever their lengths and contents. |
| `Crypto.ComposeBytes` | crates/agentbbs-core/src/approval.rs:29-38 | The buffer loop builds that composition. |
| `Board.BuildSigningBytes` | crates/agentbbs-core/src/board.rs:132-173 | The buffer loop builds the tag, the header lines and the prefixed text, in both versions. |
| `Board.SigningBytesInFull` | crates/agentbbs-core/src/board.rs:132-173 | The tag, the order of the lines, the kind words and the length-prefixed text, literally, for each kind. |
| `Board.SigningBytesIdentifyCleanBodies` | crates/agentbbs-core/src/board.rs:132-173 | Across v1 and v2 and every kind, bodies whose header fields are newline-free and whose parent is not the placeholder have equal signing bytes only if equal. |
| `Readings.BodyHasOneReadingExactlyWhen` | crates/agentbbs-core/src/board.rs:132-173 | A body of any kind, whatever its fields hold, is the only one with its signing bytes if and only if: board and parent hold no newline, and neither does a post's subject, while a milestone's or step's subject has no line that passes for a kind or a key; no line of the handle but the last is a key; and neither handle nor text holds a timestamp line and a length prefix that reaches exactly to the end. |
| `Readings.OneEndingExactlyWhen` | crates/agentbbs-core/src/board.rs:160-172 | What follows the author line divides into handle, timestamp and text in one way if and only if that last clause holds. |
| `Readings.CleanBodyHasOneReadingExactlyWhenTextIsUnspliced` | crates/agentbbs-core/src/board.rs:132-173 | A body of any kind with newline-free header fields is the only reading of its bytes if and only if its text does not end in a newline, a timestamp line and a length-prefixed text. |
| `Readings.SplicedTextStillVerifies` | crates/agentbbs-core/src/board.rs:215-222 | Where it does, a message with another handle, time and text verifies under the same id and signature, so the length prefix does not keep texts from forging fields. |
| `Readings.TextReadsAsAnotherBoard` | crates/agentbbs-core/src/board.rs:132-222 | A text that carries a header by the same author makes a verified post verify on another board too. |
| `Readings.DashReadsAsNoParent` | crates/agentbbs-core/src/board.rs:145-152 | A parent spelled `-` has the signing bytes of no parent. |
| `Readings.NewlineForgesFraming` | crates/agentbbs-core/src/board.rs:132-173 | Whenever board, parent or subject holds a newline, a post by the same author on a different board has the same signing bytes. |
| `Readings.AmbiguousFramingStillVerifies` | crates/agentbbs-core/src/board.rs:215-222 | Such a twin verifies under the same id and signature. |
| `Board.IdIdentifiesCleanMessages` | crates/agentbbs-core/src/board.rs:177-222 | Verified clean messages with one id have one body. |
| `Approval.DecisionBytesAreInjective` | crates/agentbbs-core/src/approval.rs:108-127 | Different decisions never share signing bytes. |
| `Federation.EnvelopeBytesAreInjective` | crates/agentbbs-federation/src/envelope.rs:90-113 | Different envelopes never share signing bytes. |
| `Log.FirstInsertionWins` | crates/agentbbs-core/src/store.rs:82-95 | After inserting any list, each id shows the message first inserted under it. |
| `Log.ListedIdIsHeld` | crates/agentbbs-core/src/store.rs:82-95 | Every id in a list is held after the list is inserted. |
| `Log.FirstListedIsKept` | crates/agentbbs-core/src/store.rs:82-95 | Of an id that was new, the first message listed under it is the one stored. |
| `Log.GainedWasListed` | crates/agentbbs-core/src/store.rs:82-95 | Anything gained was in the list, under an id not held before. |
| `Log.ListIsTheNewest` | crates/agentbbs-core/src/store.rs:101-113 | A listing holds board messages in insertion order, no more than the limit, and leaves one out only when it is full of newer ones. |
| `Log.SameViewWhenFreshAgree` | crates/agentbbs-core/src/store.rs:82-95 | Two insertion lists with the same fresh ids and agreeing messages leave the same messages. |
| `Log.OrderIsIrrelevantExactlyWhenFreshAgree` | crates/agentbbs-core/src/store.rs:82-95 | All reorderings of a list leave the same messages if and only if its fresh messages agree per id. |
| `Store.EveryMessageIsListedOnce` | crates/agentbbs-core/src/store.rs:82-95 | Each stored id occurs once in exactly its own board's index. |
| `Store.LookupFindsAll` | crates/agentbbs-core/src/store.rs:101-113 | Every indexed id is found, so the listing never drops one. |
| `Store.MemoryStore.PutMessage` | crates/agentbbs-core/src/store.rs:82-95 | Inserts unless the id is present; the tables keep agreeing with the log. |
| `Store.MemoryStore.ListMessages` | crates/agentbbs-core/src/store.rs:101-113 | The last `limit` entries of the board's first-insertion order. |
| `Store.RedbStore.PutMessage` | crates/agentbbs-core/src/store.rs:256-294 | The encoded tables refine the same log step. |
| `Store.RedbStore.ListMessages` | crates/agentbbs-core/src/store.rs:313-323 | The same listing from the encoded tables. |
| `Store.BothStoresAgree` | crates/agentbbs-core/src/store.rs:82-323 | Fed the same messages, both stores give the same listing. |
| `Federation.Accepted` | crates/agentbbs-federation/src/federator.rs:238-292 | Only verified messages are ever taken from an envelope; which are taken is `Federator.GenuineSnapshotArrives` and `Federator.GenuineMessageArrives`. |
| `Federation.IngestKeepsTheLogVerified` | crates/agentbbs-federation/src/federator.rs:238-292 | Any list of envelopes leaves every stored message verified. |
| `Federation.OrderIsIrrelevantExactlyWhenLeadersAgree` | crates/agentbbs-federation/src/federator.rs:238-292 | Every order and every repetition of a collection of envelopes leaves the same ids and bodies if and only if, for each new id, the first accepted message under it has one body in all envelopes that carry one. |
| `Federation.UncleanPostHasRacingEnvelopes` | crates/agentbbs-federation/src/federator.rs:238-292 | Order can matter: every verified post with an unclean framing has a verified twin, and of two envelopes carrying them the first to arrive decides the body. |
| `Federation.CleanIngestConverges` | crates/agentbbs-federation/src/federator.rs:238-292 | Which holds, unconditionally on order and repeats, for messages with newline-free header fields. |
| `Federation.UnionExactlyWhenNoStrays` | crates/agentbbs-federation/src/federator.rs:139-178 | When the answer covers A's board, B's ids for it become the union of both, for any digest limit, if and only if B holds none of A's ids under another board. |
| `Federation.SnapshotGivesUnionExactlyWhenNoStrays` | crates/agentbbs-federation/src/federator.rs:215-292 | A snapshot that covers A's board makes B's ids for it the union of both, under the same condition and no other. |
| `Federation.DeltaIsWhatIsNotHeld` | crates/agentbbs-federation/src/federator.rs:160-178 | An answer holds exactly the listed messages that the digest does not name. |
| `Federation.CleanReplicasHaveNoStrays` | crates/agentbbs-federation/src/federator.rs:139-178 | Verified clean replicas meet that condition. |
| `Federation.FullDigestGetsExactDelta` | crates/agentbbs-federation/src/federator.rs:160-178 | When the digest covers B's board, the answer is exactly A minus B. |
| `Federation.EqualReplicasAreQuiet` | crates/agentbbs-federation/src/federator.rs:160-178 | Equal replicas answer each other with nothing. |
| `Federation.OneExchangeEachWay` | crates/agentbbs-federation/src/federator.rs:133-178 | One exchange each way leaves both with the union of the ids, and with the same body under every id if and only if they did not disagree about one before. |
| `Federation.CleanReplicasAgree` | crates/agentbbs-federation/src/federator.rs:133-178 | Verified replicas with newline-free header fields do not disagree. |
| `Federation.UncleanPostHasAVerifiedStray` | crates/agentbbs-federation/src/federator.rs:139-178 | Strays can be received: every verified post with an unclean framing has a verified twin, and a replica holding the twin never gets the post. |
| `Federator.RefusedEnvelopesChangeNothing` | crates/agentbbs-federation/src/federator.rs:238-292 | An envelope refused for its signature or for any message in it changes no message, board or peer. |
| `Federator.Federator.Ingest` | crates/agentbbs-federation/src/federator.rs:238-325 | The outcome and the new log, boards and peers for every envelope: a bad envelope signature is refused as such, a refusal leaves the log alone, an accepted message or snapshot is inserted whole. |
| `Federator.DeliverSnapshot` | crates/agentbbs-federation/src/federator.rs:273-286 | On the node after an opened snapshot of genuine messages: its metadata is stored, every carried id is held, and each new id by the first message carried under it. |
| `Federator.GenuineSnapshotArrives` | crates/agentbbs-federation/src/federator.rs:273-286 | The same of the log step, where genuine means that the id is the hash of the signing bytes and the author signed them. |
| `Federator.GenuineMessageArrives` | crates/agentbbs-federation/src/federator.rs:252-256 | A genuine replicated message is appended unless its id is held. |
| `Federator.OnlyGenuineMessagesArrive` | crates/agentbbs-federation/src/federator.rs:238-325 | Whatever an envelope adds was carried in it, under a valid node signature, with its own hash as id, signed by its author, under an id not held before. |
| `Federator.TaintedSnapshotIsRefused` | crates/agentbbs-federation/src/federator.rs:274-278 | One message that is not genuine refuses the whole snapshot. |
| `Federator.FirstFaultIsReported` | crates/agentbbs-federation/src/federator.rs:274-278 | The error is that of the first message that fails: malformed for a wrong id, otherwise a bad signature. |
| `Federator.BoardsAndPeersAfter` | crates/agentbbs-federation/src/federator.rs:265-325 | An accepted announcement or snapshot overwrites its board's metadata, an accepted peer exchange is merged, and nothing else touches either. |
| `Federator.SendSnapshot` | crates/agentbbs-federation/src/federator.rs:215-286 | One live node bootstraps another: the listing is inserted, and with a covering limit B's board becomes the union exactly when there are no strays. |
| `Federator.Federator.MakeDigest` | crates/agentbbs-federation/src/federator.rs:139-153 | A verifiable digest of the newest ids of the board. |
| `Federator.Federator.Reconcile` | crates/agentbbs-federation/src/federator.rs:160-178 | The delta against a verified digest; the three refusals. |
| `Federator.Federator.MakeSnapshot` | crates/agentbbs-federation/src/federator.rs:215-232 | A verifiable snapshot of scrubbed metadata and the newest messages; an error for an unknown board. |
| `Federator.Federator.PromoteViaTrust` | crates/agentbbs-federation/src/federator.rs:68-95 | The peers after promotion and how many were promoted. |
| `Federator.Exchange` | crates/agentbbs-federation/src/federator.rs:139-292 | Two live nodes exchanging digest, answer and sealed messages perform the log step the convergence results are about. |
| `Peer.DiscoveryNeverGrantsTrust` | crates/agentbbs-federation/src/peer.rs:110-118 | Merging discovered peers adds unknown ones and raises nobody. |
| `Peer.DiscoveryAddsTheFirstOfEach` | crates/agentbbs-federation/src/peer.rs:110-118 | Everyone gossiped about is known afterwards and nobody else is new; a new peer is unknown and has the first address gossiped for it. |
| `Peer.PeerBook.MergeDiscovered` | crates/agentbbs-federation/src/peer.rs:110-118 | The merged book and the number added. |
| `Promotion.PromotionDoesNotCreep` | crates/agentbbs-federation/src/federator.rs:68-95 | Promotion leaves the trusted set alone, and a second one at the same depth promotes nobody. |
| `Promotion.PromotionLinksTheVouchedFor` | crates/agentbbs-federation/src/federator.rs:68-95 | Exactly the unknown peers at the end of at most that many endorsements from a trusted one become linked; addresses and everyone else stay. |
| `Promotion.RunIsContained` | crates/agentbbs-federation/src/federator.rs:60-95 | Over any run of endorsing, ingesting and promoting, the trusted set stays the same, no peer's level drops, and each newly linked peer was within the depth of one of the promotions over the endorsements held at that moment. |
| `Promotion.EdgesAreVerified` | crates/agentbbs-federation/src/federator.rs:60-62 | Every endorsement edge gained in a run came from a verified endorsement. |
| `RateLimit.RateLimiter.Allow` | crates/agentbbs-core/src/ratelimit.rs:37-53 | A key without a window in force gets a fresh one at now; within one, the event is refused at `max` and otherwise counted; other keys are left alone. |
| `RateLimit.RateLimiter.Gc` | crates/agentbbs-core/src/ratelimit.rs:56-59 | Exactly the windows that began at least a window's length ago are dropped. |
| `RateLimit.OtherKeysAndCollectionChangeNoAnswer` | crates/agentbbs-core/src/ratelimit.rs:37-59 | On a non-decreasing clock, an answer depends only on the key's own events: other keys and collections anywhere change none. |
| `RateLimit.RunStaysInBound` | crates/agentbbs-core/src/ratelimit.rs:16-59 | Over any run on a non-decreasing clock, other keys' events and collections included, any half-open interval of one window's length contains at most 2*max - 1 allowed events of a key (none if max is 0). |
| `RateLimit.SlidingBound` | crates/agentbbs-core/src/ratelimit.rs:16-53 | The same bound on one key's own history. |
| `RateLimit.SlidingBoundIsReached` | crates/agentbbs-core/src/ratelimit.rs:16-53 | For every positive max and every window of at least two milliseconds that bound is attained. |
| `RateLimit.QuotaHoldsForIntervalsExactlyWhen` | crates/agentbbs-core/src/ratelimit.rs:16-53 | No interval of one window's length ever sees more than max events if and only if max is at most 1 or the window lasts at most one millisecond. |
| `Approval.ApprovalGate.Record` | crates/agentbbs-core/src/approval.rs:108-183 | A decision is stored exactly when its decider signed tag, action, verdict, reason, key and time. |
| `Approval.ApprovalGate.IsAuthorized` | crates/agentbbs-core/src/approval.rs:196-211 | True exactly when some decision on this action by an allowed decider approves and every such decision approves. |
| `Approval.OneMoreDecision` | crates/agentbbs-core/src/approval.rs:196-211 | An appended decision on another action or by someone not allowed changes no answer; any other authorizes exactly if it approves and nobody allowed had rejected. |
| `Approval.NobodyAllowedNothingAuthorized` | crates/agentbbs-core/src/approval.rs:192-211 | An empty set of deciders authorizes nothing. |
| `Approval.VetoIsForever` | crates/agentbbs-core/src/approval.rs:192-211 | A recorded veto keeps the action unauthorized whatever is recorded later and whoever else is allowed. |
| `Approval.OpenGateNeedsUnanimity` | crates/agentbbs-tui/src/app.rs:852-873 | When everyone who decided is allowed, as the driver does, authorization is at least one approval and no rejection by anyone. |
| `Playbook.Validate` | crates/agentbbs-core/src/playbook.rs:148-173 | Accepts exactly definitions with a name, a version, at least one step, distinct non-blank step ids and every field its kind of step needs. |
| `Playbook.GatesAreSignedSeparately` | crates/agentbbs-core/src/playbook.rs:238-246 | In a valid playbook distinct gates have distinct action ids, so an approval opens one gate. |
| `Playbook.PlaybooksAreSignedSeparately` | crates/agentbbs-core/src/playbook.rs:238-246 | And distinct playbooks with colon-free ids never share one. |
| `Playbook.PlaybookRun.Advance` | crates/agentbbs-core/src/playbook.rs:253-275 | Past a step that is no gate by one; past a gate exactly if its action id has an allowed approval and no allowed rejection, otherwise parked; a finished run stays. |
| `Playbook.CursorOnlyGrows` | crates/agentbbs-core/src/playbook.rs:253-275 | Over any interleaving of records and advances the cursor never falls and no decision is lost. |
| `Playbook.EveryGatePassedWasAuthorized` | crates/agentbbs-core/src/playbook.rs:253-275 | Each gate passed in such a run was authorized at the very step that passed it. |
| `Playbook.GatePassedWasApproved` | crates/agentbbs-core/src/playbook.rs:253-275 | In the decisions' own fields: at the advance that passed a gate an allowed decider had approved its action id and none had rejected it. |
| `Playbook.DecisionsWereRecorded` | crates/agentbbs-core/src/approval.rs:179-183 | Each decision in a run was there before or was recorded in it under its decider's signature. |
| `Playbook.VetoBlocksTheGate` | crates/agentbbs-core/src/playbook.rs:253-275 | A recorded veto by an always-allowed decider holds the run at or before that gate forever. |
| `Autopilot.FirstBlocked` | crates/agentbbs-tui/src/app.rs:852-873 | The first gate at or after the cursor that the decisions do not open, or the end. |
| `Autopilot.Drive` | crates/agentbbs-tui/src/app.rs:852-873 | Driving terminates exactly there, completed or awaiting approval. |
| `Autopilot.DrivenPastGatesWereApproved` | crates/agentbbs-tui/src/app.rs:852-873 | A gate driven past had an approval and no rejection. |
| `Autopilot.WhereDrivingStops` | crates/agentbbs-tui/src/app.rs:852-873 | A driven run is over, or waits at a gate that nobody approved or somebody rejected. |
| `Autopilot.DrivingIsIdempotent` | crates/agentbbs-tui/src/app.rs:852-873 | Driving again without new decisions changes nothing. |
| `Autopilot.App.PostRunProgress` | crates/agentbbs-tui/src/app.rs:877-907 | Posts keep forming one thread under one milestone, up to the completed step. |
| `Autopilot.EachStepOnce` | crates/agentbbs-tui/src/app.rs:877-907 | In such a thread each completed step is attempted exactly once, in order. |
| `Autopilot.App.RunPlaybook` | crates/agentbbs-tui/src/app.rs:800-819 | A fresh run driven from the start; an invalid playbook starts nothing. |
| `Autopilot.App.AdvanceRun` | crates/agentbbs-tui/src/app.rs:822-847 | The current run driven on, its thread extended. |
| `ControlMessages.ApplyControlMessages` | crates/agentbbs-tui/src/app.rs:1543-1597 | Survivors are the non-control messages whose last retract is not their author's, in order; each shows the newest edit if that edit is its author's; flags are those of the messages as fetched. |
| `ControlMessages.ViewIsDetermined` | crates/agentbbs-tui/src/app.rs:1543-1597 | The list alone decides that view. |
| `ControlMessages.OnlyTextChanges` | crates/agentbbs-tui/src/app.rs:1585-1593 | Id, author, board and signature are kept. |
| `ControlMessages.ControlIsNeverShown` | crates/agentbbs-tui/src/app.rs:1578-1579 | No message with the control prefix is in the result. |
| `ControlMessages.WhatARetractNames` | crates/agentbbs-tui/src/app.rs:1555-1562 | A retract names its text, or what follows the prefix if it has none. |
| `ControlMessages.WhatAnEditNames` | crates/agentbbs-tui/src/app.rs:1563-1563 | An edit names what follows its prefix. |
| `ControlMessages.AuthorsRetractHides` | crates/agentbbs-tui/src/app.rs:1553-1584 | A retract by the author, arriving last, hides the post. |
| `ControlMessages.AuthorsEditShows` | crates/agentbbs-tui/src/app.rs:1553-1593 | An edit by the author, newer than every earlier edit of the post, is what is shown of it. |
| `ControlMessages.SecondApplicationChangesNothing` | crates/agentbbs-tui/src/app.rs:1543-1597 | The result is its own view: filtering and substituting again changes nothing. |
| `ControlMessages.OthersCannotHide` | crates/agentbbs-tui/src/app.rs:1530-1534 | Retracts by other keys alone never hide a message. |
| `ControlMessages.OthersCannotReplace` | crates/agentbbs-tui/src/app.rs:1530-1534 | Edits by other keys alone never change its text. |
| `ControlMessages.ForeignRetractIsHarmlessExactlyWhenNotRetracted` | crates/agentbbs-tui/src/app.rs:1555-1562 | A later retract by another key leaves visibility unchanged if and only if the author had not retracted; if the author had, the message reappears. |
| `ControlMessages.ForeignEditIsHarmlessExactlyWhen` | crates/agentbbs-tui/src/app.rs:1563-1593 | Another key's edit leaves what is shown alone if and only if it is not newer than every edit in place, or the original text was shown anyway. |
| `ControlMessages.ForeignEditRevertsTheText` | crates/agentbbs-tui/src/app.rs:1563-1593 | If it is newer than every edit in place, the original text is shown. |
| `Rvf.RoundTripExactlyWhenFits` | crates/agentbbs-core/src/rvf.rs:132-182 | Reading what was written gives the store back if and only if every id length fits 16 bits and every metadata length, the dimension and the count fit 32, given that no metadata of 4 GiB or more reads back as itself once cut to its length field. |
| `Rvf.TrailingBytesAreIgnored` | crates/agentbbs-core/src/rvf.rs:153-182 | Bytes after a valid encoding are ignored. |
| `Rvf.TruncationIsDetected` | crates/agentbbs-core/src/rvf.rs:153-182 | Every strict prefix of a valid encoding is rejected. |
| `RvfLayout.HeaderLayout` | crates/agentbbs-core/src/rvf.rs:132-137 | Magic, version 1, then dimension and count in four bytes each, lowest first. |
| `RvfLayout.RecordLayout` | crates/agentbbs-core/src/rvf.rs:138-148 | Id length in two bytes, id, metadata length in four, metadata, then the words. |
| `RvfLayout.WordLayout` | crates/agentbbs-core/src/rvf.rs:145-147 | Word i stands at offset 4 i of its vector. |
| `RvfLayout.OtherHeadersAreRefused` | crates/agentbbs-core/src/rvf.rs:155-165 | Any other magic or version is refused. |
| `VectorStore.Cursor.Take` | crates/agentbbs-core/src/rvf.rs:312-323 | The next bytes, or an error that moves nothing. |
| `VectorStore.RvfStore.Upsert` | crates/agentbbs-core/src/rvf.rs:89-102 | Replace in place or append; another dimension is refused; distinct ids stay distinct. |
| `VectorStore.UpsertReplacesOneBinding` | crates/agentbbs-core/src/rvf.rs:89-102 | Afterwards that id finds the new record and every other id what it found before. |
| `VectorStore.UpsertKeepsIdOrder` | crates/agentbbs-core/src/rvf.rs:94-100 | No id moves; a new one goes to the end. |
| `VectorStore.RvfStore.Search` | crates/agentbbs-core/src/rvf.rs:105-129 | The k best-scoring records, best first, earlier ones first among equals. |
| `VectorStore.HitsAreTheMostSimilar` | crates/agentbbs-core/src/rvf.rs:105-129 | As many hits as asked for or there are, each a record with its similarity, best first, and no record left out more similar than one returned. |
| `VectorStore.RvfStore.ToBytes` | crates/agentbbs-core/src/rvf.rs:132-150 | The writing loops build the layout. |
| `VectorStore.RvfStore.FromBytes` | crates/agentbbs-core/src/rvf.rs:153-182 | The cursor loops accept exactly what the layout's parser accepts and hold what it parsed. |
| `VectorStore.ParsedVectorsHaveTheDimension` | crates/agentbbs-core/src/rvf.rs:165-181 | Whatever bytes are accepted, every vector has the header's dimension. |
| `VectorStore.SaveAndLoad` | crates/agentbbs-core/src/rvf.rs:132-182 | A live store that fits comes back from its own bytes, whatever follows them. |
| `Lsh.LshIndex.constructor` | crates/agentbbs-core/src/rvf.rs:207-219 | One signature per record, in store order, bit j saying on which side of plane j its vector lies. |
| `Lsh.LshIndex.Search` | crates/agentbbs-core/src/rvf.rs:224-263 | Dimension error, exact scan when the count changed, otherwise the hits `Lsh.HitsAreTheMostSimilarOfTheNearest` is about, with the larger of `topK` and `maxCandidates` as budget. |
| `Lsh.HitsAreTheMostSimilarOfTheNearest` | crates/agentbbs-core/src/rvf.rs:240-263 | The hits are the most similar, best first, of the records that differ from the query's signature on the fewest planes. |
| `Lsh.HammingCountsDifferingPlanes` | crates/agentbbs-core/src/rvf.rs:242-242 | The distance is the number of planes on which two signatures differ. |
| `Lsh.Sign` | crates/agentbbs-core/src/rvf.rs:283-292 | Bit i says on which side of plane i the vector lies. |
| `Lsh.CandidatesAreNearest` | crates/agentbbs-core/src/rvf.rs:240-243 | As many candidates as the budget allows, and none left out differs from the query's signature on fewer planes. |
| `Lsh.IndexedHitsAreTopOfCandidates` | crates/agentbbs-core/src/rvf.rs:243-263 | For any budget, the hits are the exact top k of the candidates. |
| `Lsh.FullBudgetScoresExactly` | crates/agentbbs-core/src/rvf.rs:185-195 | A budget covering the store returns the exact scan's score sequence, whatever the signatures hold. |
| `Lsh.FullBudgetIsIdenticalExactlyWhenTiesFollow` | crates/agentbbs-core/src/rvf.rs:185-195 | It ranks the same records if and only if, among equal scores, the earlier record is never the farther one; without repeated ids the hits agree for every k exactly then, and with them only ties between different hits matter. |
| `LshRecall.EqualVectorIsFoundExactly` | crates/agentbbs-core/src/rvf.rs:185-195 | Searched for its own vector through a fresh index, a record none outscores is among the hits if and only if fewer earlier records share its signature than the budget allows and fewer than k of those score as well. |
| `LshRecall.SearchForStored` | crates/agentbbs-core/src/rvf.rs:224-263 | The same of the hits a live index and store return. |
| `Lsh.ExactMatchIsCandidateExactly` | crates/agentbbs-core/src/rvf.rs:240-243 | A record with the query's signature is a candidate if and only if fewer earlier records share it than the budget allows. |
| `LshRecall.EqualVectorCanBeMissed` | crates/agentbbs-core/src/rvf.rs:185-195 | For all planes: two vectors on the same sides and a budget of one, and the second is not a candidate for its own search. |
| `LshRecall.EqualVectorCanBeOutranked` | crates/agentbbs-core/src/rvf.rs:185-195 | For all planes and any budget: if the first scores as well, a search for one hit does not return the second. |
| `Sorting.SortIsStable` | crates/agentbbs-core/src/rvf.rs:242-242 | The sort keeps the previous order among ties. |

## Left out

- Ed25519 and BLAKE3: a validity predicate and an injective hash stand for them.
- IEEE rounding and NaN: scores, weights, costs and similarities are exact reals, so a comparison that fails on NaN does not arise.
- f32 arithmetic in the vector store: stored words are four opaque bytes; the cosine and the plane side are parameters, and `norm` and the seeded hyperplane generator with `splitmix64` are not modelled.
- Integer widths outside the vector format: sequence numbers, counters and timestamps are unbounded, so overflow of u32 or u64 counters is not modelled.
- Memory limits: `Vec::with_capacity` on a declared count is not modelled.
- Text and JSON codecs: parameters with stated laws; a wire message that fails to parse is `None`. Blankness under `str::trim` is a parameter.
- Tables keyed by a key's hex rendering are keyed by the key itself, which `Crypto.HexIsInjective` justifies.
- Locks, the transport, broadcast, audit events and the redb engine: each operation is one atomic step.
- Promotion visits unknown peers in an arbitrary order where the program visits them sorted by node; the outcome is the same.
- Detecting that an index is stale when the record count is unchanged: the program does not, and no claim is made.
- Convergence of board metadata: the last announcement or snapshot overwrites it, so it does not converge.
- `aggregate_stacks`, `frontier`, `cost_bin`, `to_run_result` and `ingest` of the Retort track: straight aggregation and filtering.
- `leaderboard::rank`, whose tie order is left to the hash map.
- The posted progress text, `record_run_completion` and `approve_current_gate` of the terminal client, and personas and board listing in the stores.
- Wallets, budgets, drafts, capability checks, presence, market, replay guards, the WASM host, network adapters and the user interface.
