# A verified model of the retained-job index and its neighbours

This project models, in Dafny, the parts of New Dawn (a dashboard for Laravel Horizon) whose correctness
does not show in any single function: a Redis index that is rebuilt while it is being read, paging that is put
together from several sorted sets, and a handful of loops that must survive interruption or interleave with
their own deletions. Each module states what its part is for, independently of how it is computed, and proves
that the modelled code does it for all inputs, all runs and all interruptions.

## What is modelled

**The generation protocol** (`GenerationProtocol`). Per job type there are two alternating slots beside the slot
of the previous release, a token lock, and a published `generation:revision` word. A state machine has writers,
the unlocked publish of the legacy word, readers of the published generation and live readers; every GET, SET,
MULTI/EXEC and Lua script is one action, and any process may crash between two of its own. Proved over every
run: a live writer's slot is never the published one; a reader of the published generation that returns read one
slot, unwritten between its two checks. For live readers this is false as it stands: a legacy word can give way to
a slot's word and come back, so a live reader whose first word is a legacy revision that is still on its way to
publication can mix two generations and pass its end check. A concrete run shows it from an empty Redis, and
a reader is safe in every continuation exactly when its first word was not such a revision. Safety is not all:
a reader does return while one word stays in effect (`GenerationReads`), with every observation of that word's slot,
and a read that ends without a result has crashed, met a lock, or seen the word missing or changed; a writer that is
not interrupted does publish what it wrote in the other slot, whatever runs between its commands
(`GenerationWrites`). `PublishedSlots` joins the protocol with the facet index below: a reader of a published slot that returns has read one sound slot that
covered a source a writer was given.

**Summaries over several types** (`SummarySnapshots`). Counts of four job types read one by one, each between two
checks of its own word, all of them between two passes over the words, and a cache keyed by these words. If the
passes agree, the whole summary was true at the instant at which the first pass ended, also when it comes from the
cache, unless a word it read was a legacy word still on its way to publication. That exception is real: from every
such state, in which no word read is gone for good, a history leads to an accepted summary that is true at no
instant. Together these say exactly when two agreeing passes are enough. A request is answered when words and counts
rest from the start of its first attempt, or of its second after a first one in vain, and an answer is withheld only
for a missing word or for words that changed.

**Keyset paging** (`KeysetPaging`). Rank arithmetic with a binary search among equal scores, paging with an
exclusion set, and paging a small id set in memory, against the definition "the next entries beyond the cursor".
Over sessions in which members come and go between pages: nothing is repeated under an unchanged score, and
an entry that stays is shown on exactly one page.

**The pending list** (`PendingPaging`). Reserved jobs first, then the rest, with delayed jobs merged in by their
availability; phases, page filling and probes. A page, from any cursor and in any phase, is said without its parts:
it holds the next jobs ahead of the cursor, reserved ones first and then by availability where a job has one and by
score where it has none. Following the cursors ends, and shows the full list, every entry once and in order. For a published list with delayed jobs this too is false as it stands: the merge takes its scores
from the live source, so an indexed job that the source has dropped disappears, and the list can even end before
jobs that the source retains. It is complete exactly when no merge meets such a job; a live list always is.

**The facet index** (`FacetSlot`, `IndexWriter`, `IndexChecks`, `FilteredQueries`). One slot with its projection,
unresolved references, one sorted set per facet value and catalogs; each command and transaction is a function,
the writer is a class whose methods may stop before any command while other processes change the shared
metadata hash. At every moment, after any sequence of writers, facets are truthful, catalogued, and complete for
projected jobs, so a live filtered or searched query is exactly a plain filter of the source by job type and record:
tags select failed jobs only, targets pending ones only, and a term finds a class in whatever case. A job that cannot
be read is set aside only after the grace period, and one that was too young is projected by the next synchronization
that can read it. A run that is not interrupted leaves no debris and exact catalogs, reconciliation covers the source up to young unreadable jobs,
and the counting checks are sound and complete. Reads of the published slot alone are the naive filter exactly
when the slot has no debris, which holds as long as no writer stops early. An interrupted rebuild does leave some,
and the next writer can report success over it.

**Smaller cores.** Retry lineages are exactly the connected components, conserve attempts and do not depend on
the order of the input (`Lineages`). Batch clearing deletes each clearable batch once although it deletes while it
scans, and spares one for a failed request only if that request asked for a job of its own (`BatchClearing`). Bulk operations act only on their frozen targets, acknowledge a target only when it has just
been deleted and counted, or retried, or passed over because its own request brought no matching job, and are off by
no more than the number of interruptions (`BulkOperations`). A pending-queue scan lists every valid job once,
with what stands at its first place and in the order of these places (`PendingSnapshot`); of the one loss it cannot notice, a ready list that
vanishes during its second pass, it is said exactly which jobs are then missing. The scaling forecast moves every
pool as far as its demand, its range, the shift and the total allow, and keeps all of them within bounds for every
workload (`Autoscaling`). The metadata table ends with exactly the ids of
the batch table if and only if no stale row has the empty id, because the removal loop filters that id out and then
takes its chunk for the last one (`BatchMetadata`). Cursors survive encoding and decoding, a text opens only if it carries a payload of this
type and query under its own signature, and URL-safe base64 (sections 4 and 5 of RFC 4648) keeps the bits of every
byte string (`CursorCodec`).

## Assumptions

- A published revision is never used twice, and a writer performs no action after its own lock has lapsed;
  `UnfencedExpiryPublishesAWorkingSlot` shows that the second assumption is needed.
- The record of a job id never changes.
- In `KeysetPaging`, `PendingPaging`, `BatchClearing` and `BatchMetadata` an id stands for its rank in the byte order
  of the store.
- JSON gives back the payload of the cursor at hand, and a signature is a fixed function of the signed text. That
  the text of a score reads back is not assumed: it is the condition of `StateRoundTrip`.
- Horizon's repositories, the clock, schedules of interruptions and case folding are parameters.

## Model

| member | source | states |
|---|---|---|
| GenerationProtocol.StepKeepsInvariant | src/Jobs/RetainedJobIndex.php:3459-3534 | every action of every process, crashes and lock expiry included, keeps the protocol invariant |
| GenerationProtocol.RunKeepsInvariant | src/Jobs/RetainedJobIndex.php:3630-3756 | so does every run from a Redis without processes |
| GenerationProtocol.WorkingSlotIsNeverPublished | src/Jobs/RetainedJobIndex.php:3459-3499 | in every reachable state a live writer's slot is a slot, is not the published one, and has no second writer |
| GenerationProtocol.PinnedReaderReadsOneGeneration | src/Jobs/RetainedJobIndex.php:2594-2690 | a published read that returns saw one slot version at every read and at both checks |
| GenerationProtocol.LiveReaderReadsOneGeneration | src/Jobs/RetainedJobIndex.php:2454-2583 | a live read that returns saw one generation's version throughout, unless its first word was exposed |
| GenerationProtocol.LiveReadIsSafeExactlyWhenNothingIsPending | src/Jobs/RetainedJobIndex.php:2454-2583 | a live reader that starts while nothing is published reads one generation in every continuation if and only if no process has yet to publish the legacy revision it starts on |
| GenerationProtocol.ExposedLiveReaderCanMixGenerations | src/Jobs/RetainedJobIndex.php:2454-2583 | from every exposed state a run makes the live reader return entries of two generations |
| GenerationProtocol.EmptyRedisAllowsAMixedLiveRead | src/Jobs/RetainedJobIndex.php:3715-3756 | such a run exists from an empty Redis with one legacy publish, one writer and one reader |
| GenerationProtocol.LegacyWordCanComeBack | src/Jobs/RetainedJobIndex.php:3715-3725 | a legacy word is replaced by a slot's word and published again |
| GenerationProtocol.ReplacedWordIsGone | src/Jobs/RetainedJobIndex.php:3658-3713 | a used word that is not in effect, and is no legacy word still on its way, never takes effect again |
| GenerationProtocol.EffectiveWordIsStable | src/Jobs/RetainedJobIndex.php:3658-3756 | a word in effect at both ends of a run, slot or legacy, that could not return was in effect throughout, over an unwritten slot |
| GenerationProtocol.UnfencedExpiryPublishesAWorkingSlot | src/Jobs/RetainedJobIndex.php:3831-3849 | if expiry only freed the lock, a lapsed writer's slot could become the published one under it |
| GenerationReads.PublishedReadReturns | src/Jobs/RetainedJobIndex.php:2594-2690 | a published read returns in every interleaving in which one word that cannot return is in effect at its first GET and at its last; all it observed is that word's slot, whichever key holds the word |
| GenerationReads.LiveReadReturns | src/Jobs/RetainedJobIndex.php:2454-2583 | so does a live read that finds no lock at its two checks, also when there is no word; it looked at that one generation each time |
| GenerationReads.ReadsEndInVainOnlyForAReason | src/Jobs/RetainedJobIndex.php:2454-2690 | a read ends without a result only if it crashed, found a lock, read two different words, or, for a published read, found no word |
| GenerationReads.ResultsAreChecked | src/Jobs/RetainedJobIndex.php:2454-2690 | whoever returns has read its word twice, and a live reader has found the lock free twice between |
| GenerationReads.LegacyPublishFillsAGap | src/Jobs/RetainedJobIndex.php:3715-3756 | a request stores a legacy word only after it found both keys absent |
| GenerationWrites.OthersStayOff | src/Jobs/RetainedJobIndex.php:3459-3499 | while a process holds the lock, an action of any other one changes no slot, nor the lock, nor that process |
| GenerationWrites.WriterPublishes | src/Jobs/RetainedJobIndex.php:3501-3534 | a writer that finds the lock free and is not interrupted publishes in every interleaving: the slot that was not in effect when it looked, holding what it wrote last, under a revision not used before |
| GenerationWrites.LockIsTakenAndFreed | src/Jobs/RetainedJobIndex.php:3630-3656 | a writer that meets a lock gives up and changes nothing else; a release frees the lock and changes nothing else |
| GenerationWrites.RequestStoresTheLegacyWord | src/Jobs/RetainedJobIndex.php:3658-3725 | a request that finds neither key stores a new legacy revision and then the word that carries it; one that finds either stores nothing |
| PublishedSlots.TrailIsOwnRun | src/Jobs/RetainedJobIndex.php:205-288 | the states that a writer's commands leave behind are a run of its own actions on its working slot |
| PublishedSlots.SynchronizeWorkingSlot | src/Jobs/RetainedJobIndex.php:205-288 | a synchronization of the working slot is such a run, and its success makes the slot fit to be published |
| PublishedSlots.PublishedReaderReadsAFitSlot | src/Jobs/RetainedJobIndex.php:2594-2690 | in every run of such writers a published read that returns read one sound slot in use that covered one of their sources |
| PublishedSlots.LiveReaderReadsAFitSlot | src/Jobs/RetainedJobIndex.php:2454-2583 | so did a live read whose first word names a slot |
| SummarySnapshots.WordHeldBetween | src/Queues/QueueJobsData.php:517-537 | a word in effect at two instants that could not return was in effect over the same content at every instant between |
| SummarySnapshots.ReadWordWasInEffect | src/Jobs/RetainedJobIndex.php:3735-3756 | a word already in use that is read later, and cannot return, is in effect now and at the read, whichever of the two keys it is read from |
| SummarySnapshots.CountPublished | src/Jobs/RetainedJobIndex.php:2594-2690 | three counts between two equal words are the counts of that word's generation at the instant it was read, unless it is a legacy word that can return |
| SummarySnapshots.PublishedRevisions | src/Queues/QueueJobsData.php:540-555 | one pass yields the word in effect of each type in enumeration order, all of them in use by its end, or nothing as soon as one is missing |
| SummarySnapshots.BuildSummary | src/Queues/QueueJobsData.php:704-752 | the counts of the four types in the order of the summary, or nothing as soon as one is missing |
| SummarySnapshots.AcceptedIsTrue | src/Queues/QueueJobsData.php:517-537 | when the second pass reads the words of the first, of which none could return when the first ended, all words and counts were true at that instant |
| SummarySnapshots.ReturningWordAllowsAFalseSummary | src/Queues/QueueJobsData.php:517-537 | if a word read can return and none is gone for good, some history makes the request accept a summary that is true at no instant |
| SummarySnapshots.SummariesAreTrueExactlyWhenNoWordReturns | src/Queues/QueueJobsData.php:517-537 | whatever happens after the first pass, every accepted summary was true at some instant if and only if no word read can return, or one is gone for good |
| SummarySnapshots.SnapshotOfRest | src/Queues/QueueJobsData.php:517-537 | if every type has a word in effect and words and counts rest from the start of an attempt to its end, the attempt yields these words with the counts of their generations |
| SummarySnapshots.SecondAttemptOfRest | src/Queues/QueueJobsData.php:519-534 | so does the second attempt after a first one whose passes disagreed |
| SummarySnapshots.SnapshotFailsForAReason | src/Queues/QueueJobsData.php:517-537 | there is no summary only if a word was missing or changed around the counts of its own type, or words changed between two reads in each of two attempts |
| SummarySnapshots.PublishedSummarySnapshot | src/Queues/QueueJobsData.php:517-537 | a summary comes of an attempt during which words and counts rest, with these words and counts; none comes only if a word was missing or changed around its own counts, or words changed in both attempts; and a summary was true as a whole when its first pass ended, unless a word it read could still return then |
| SummarySnapshots.MatchingWordsKeepSummaryTrue | src/Queues/QueueJobsData.php:477-483 | a true summary, none of whose words could return, is still true at every instant before its words are read again |
| SummarySnapshots.RetainedSummaryWithCache | src/Queues/QueueJobsData.php:461-509 | the cached summary is shown while its words are in effect, else a new one, else the old one as such; while words and counts rest, the current ones are shown; what is shown as current was true at one instant of this request, unless a word could return when it was read |
| KeysetPaging.TieBoundary | src/Jobs/RetainedJobIndex.php:3191-3231 | the binary search among equal scores finds the number of entries before the cursor's id, with or without it |
| KeysetPaging.PageEntries | src/Jobs/RetainedJobIndex.php:3139-3189 | reading by rank returns the next entries beyond the cursor, in both directions, also when its own entry is gone |
| KeysetPaging.SourcePage | src/Jobs/RetainedJobIndex.php:2988-3007 | a page holds members beyond the cursor, in order and before all others beyond it, as many as asked for while there are others; it counts the whole set, and its cursor names the last entry shown just while another is left |
| KeysetPaging.PageOfIsPage | src/Jobs/RetainedJobIndex.php:3110-3134 | the same of every ordered walk, in both directions |
| KeysetPaging.CursorResumes | src/Jobs/RetainedJobIndex.php:3110-3134 | a page's cursor leaves exactly the entries behind the page |
| KeysetPaging.SourcePageExcluding | src/Jobs/RetainedJobIndex.php:3018-3099 | paging with an exclusion set is "drop the excluded, then take", its cursor loses and repeats nothing, and it reads at most one raw page per excluded id and one more |
| KeysetPaging.DroppedAtMostExcluded | src/Jobs/RetainedJobIndex.php:3018-3099 | distinct entries lose no more of themselves than there are excluded ids |
| KeysetPaging.ScoresForIds | src/Jobs/RetainedJobIndex.php:755-783 | the listed ids that the source retains, each once, with the source's score |
| KeysetPaging.PageAdditionalIds | src/Jobs/RetainedJobIndex.php:536-610 | the page built in memory is the page of the sorted set restricted to the listed ids |
| KeysetPaging.CursorsAdvance | src/Jobs/RetainedJobIndex.php:3110-3134 | over a session on a changing set every later cursor lies beyond every earlier one |
| KeysetPaging.NothingIsRepeated | src/Jobs/RetainedJobIndex.php:2988-3007 | two pages of a session never show the same id under the same score |
| KeysetPaging.StayersAreShown | src/Jobs/RetainedJobIndex.php:2988-3007 | an entry present in every read and passed by the cursor has been shown |
| KeysetPaging.StayersAreShownExactlyOnce | src/Jobs/RetainedJobIndex.php:2988-3007 | an entry that stays throughout a finished session is on exactly one page |
| PendingPaging.DelayedOrderingScores | src/Jobs/RetainedJobQuery.php:588-611 | the scores hold a delayed id under its negated availability exactly when it is outside the exclusion set, each once, and nothing else |
| PendingPaging.MergePendingRestStreams | src/Jobs/RetainedJobQuery.php:641-701 | the merge loop yields the page of both streams in one order |
| PendingPaging.ReadPendingReservedFirst | src/Jobs/RetainedJobQuery.php:304-499 | the page read with these loops holds the next jobs ahead of the cursor in order: reserved first, then by availability or score; it is full while others are left, and its cursor leaves just these |
| PendingPaging.MergeTakes | src/Jobs/RetainedJobQuery.php:516-582 | the first entries of a merge come from at least as many first entries of each stream |
| PendingPaging.MergeBeyond | src/Jobs/RetainedJobQuery.php:516-582 | cutting at a cursor commutes with merging |
| PendingPaging.SortedIsMerge | src/Jobs/RetainedJobQuery.php:641-701 | sorting the concatenated streams is merging them |
| PendingPaging.RestPageShows | src/Jobs/RetainedJobQuery.php:516-582 | a page of the rest shows the next entries of the rest, by score or availability, and its cursor stands at the last |
| PendingPaging.PageAdvances | src/Jobs/RetainedJobQuery.php:304-499 | from every cursor and phase a page shows the head of what the cursor has left and leaves the tail |
| PendingPaging.FollowingCursorsShowsTheList | src/Jobs/RetainedJobQuery.php:304-403 | the pages from the first to the last, put together, are the full list |
| PendingPaging.CursorsEnd | src/Jobs/RetainedJobQuery.php:304-403 | the chain of cursors from any cursor is finite |
| PendingPaging.FullListIsComplete | src/Jobs/RetainedJobQuery.php:304-499 | the full list has every candidate and, if it is published and unfiltered, the delayed jobs that the source retains, nothing else, and no id twice |
| PendingPaging.FullListIsInOrder | src/Jobs/RetainedJobQuery.php:516-611 | reserved jobs stand first; of two others the one with the higher key does, which is the negated availability of a delayed job and the score of any other, then the higher id |
| PendingPaging.PlaceIsUnique | src/Jobs/RetainedJobQuery.php:588-611 | a job has one key |
| PendingPaging.RemainingIsAhead | src/Jobs/RetainedJobQuery.php:304-403 | a cursor leaves the listed jobs whose key and id lie behind its position, in the phase it names |
| PendingPaging.PageIsNextInOrder | src/Jobs/RetainedJobQuery.php:304-499 | from every cursor and phase a page shows the next listed jobs in order and its cursor leaves exactly the others |
| PendingPaging.ReservedWalkIsOrdered | src/Jobs/RetainedJobQuery.php:409-499 | the reserved part is exactly the reserved candidates in source order, read in memory or from the index |
| PendingPaging.LiveListsAreRetained | src/Jobs/RetainedJobQuery.php:304-403 | a live list always meets the condition of completeness |
| PendingPaging.FollowingCursorsIsCompleteExactlyWhenRetained | src/Jobs/RetainedJobQuery.php:516-582 | following the cursors shows every candidate if and only if no merge meets a candidate the source has dropped |
| PendingPaging.DroppedIdsEndThePublishedList | src/Jobs/RetainedJobQuery.php:641-701 | two dropped ids at the head of a published list end it before a job that the source retains |
| FacetSlot.StoreHydratedKeeps | src/Jobs/RetainedJobIndex.php:2130-2173 | the indexing transaction keeps a slot truthful, catalogued, disjoint, complete and free of debris |
| FacetSlot.RemoveKnownKeeps | src/Jobs/RetainedJobIndex.php:2307-2330 | the removal transaction keeps a slot sound and leaves only jobs of unknown metadata in facets |
| FacetSlot.MirrorsTheProjection | src/Jobs/RetainedJobIndex.php:3433-3448 | in a sound, clean and exact slot each facet is the naive filter of the projection and the catalogs list just the facets in use |
| FacetSlot.FacetsAreCarried | src/Jobs/RetainedJobIndex.php:3423-3448 | a job is indexed under a tag exactly when it failed and has the tag, under a target exactly when it is pending with this connection and queue, under a class, queue or connection exactly when its record has it |
| IndexWriter.Writer.HydrateAndStore | src/Jobs/RetainedJobIndex.php:2065-2175 | found jobs are projected with their scores, of the others exactly those older than five seconds are set aside and the younger ones left; sound wherever the writer stops |
| IndexWriter.Writer.AddMissingJobs | src/Jobs/RetainedJobIndex.php:2006-2062 | the same for everything the source has and the slot has not, whatever the chunks, leaving the rest of the slot; the count is that of the missing ids |
| IndexWriter.Writer.RemoveUnknownFacetMemberships | src/Jobs/RetainedJobIndex.php:2367-2442 | afterwards no facet holds any of the ids and no catalog lists an empty facet |
| IndexWriter.Writer.DropEmptied | src/Jobs/RetainedJobIndex.php:2339-2355 | emptied facets leave the catalog first and are deleted then, which makes the catalogs exact |
| IndexWriter.Writer.RemoveStaleChunk | src/Jobs/RetainedJobIndex.php:2265-2364 | a chunk goes from the projection or nothing does; uninterrupted, no debris and no empty catalog entry is left |
| IndexWriter.Writer.RemoveStaleJobs | src/Jobs/RetainedJobIndex.php:2177-2217 | the projection becomes its part within the source |
| IndexWriter.Writer.RemoveStaleUnresolvedReferences | src/Jobs/RetainedJobIndex.php:2219-2262 | the references become their part within the source |
| IndexWriter.CountTestIsExact | src/Jobs/RetainedJobIndex.php:442-458 | the count test fires exactly when the slot holds an id the source does not have |
| IndexWriter.Writer.ReconcileProjection | src/Jobs/RetainedJobIndex.php:436-467 | against a fixed source: stale ids gone, present ones kept with their scores, readable missing ones added, and of the others exactly those past the grace period set aside |
| IndexWriter.ReconciledCoversTheSource | src/Jobs/RetainedJobIndex.php:436-467 | then projection and references are disjoint parts of the source, and an id is still missing exactly when it was missing before, was not resolved and is younger than five seconds |
| IndexWriter.ReconcileAgain | src/Jobs/RetainedJobIndex.php:2006-2111 | a job left out for being too young is projected by the next reconciliation that can read it |
| IndexWriter.Writer.RebuildTypeIndex | src/Jobs/RetainedJobIndex.php:1530-1580 | from any sound slot a finished rebuild indexes the whole source and leaves neither debris nor inexact catalogs |
| IndexWriter.Writer.PrepareWorkingGeneration | src/Jobs/RetainedJobIndex.php:3459-3499 | an initialized slot is left alone; any other is emptied, given the published references and only then initialized |
| IndexWriter.Writer.DeleteFacetKeys | src/Jobs/RetainedJobIndex.php:3589-3628 | deleting the catalogued facets and the catalogs leaves no facet member anywhere |
| IndexWriter.Writer.SynchronizeUnderLock | src/Jobs/RetainedJobIndex.php:355-423 | success means coverage and passing checks; an uninterrupted run does succeed when no unreadable job is young, and leaves a slot alone that covers the source and passes already |
| IndexWriter.Writer.Synchronize | src/Jobs/RetainedJobIndex.php:205-288 | success means coverage and passing checks of a slot in use; a run that is not stopped leaves no debris in a slot that had none or was not in use, and keeps debris that passes the checks |
| IndexWriter.Successors | src/Jobs/RetainedJobIndex.php:205-288 | after any sequence of writers, each stopping anywhere, the slot is sound; as long as none of them stops, it is also free of debris with exact catalogs |
| IndexChecks.SizesOfDisjoint | src/Jobs/RetainedJobIndex.php:2851-2880 | the sizes add up to the size of the union exactly when no two sets overlap |
| IndexChecks.UnionKeysInChunks | src/Jobs/RetainedJobIndex.php:2926-2968 | unions of 500 keys, level by level, end in the union of all keys, or in nothing for no keys |
| IndexChecks.CatalogPartitionIsExact | src/Jobs/RetainedJobIndex.php:2839-2920 | the counting check succeeds if and only if the dimension's facets partition the projection |
| IndexChecks.CoverByCounting | src/Jobs/RetainedJobIndex.php:1440-1458 | an empty gap and equal counts hold if and only if projection and references partition the source |
| IndexChecks.IndexStructureIsConsistent | src/Jobs/RetainedJobIndex.php:1472-1527 | the structural check succeeds if and only if a slot with jobs lists a class, a queue, a connection and, for pending jobs, a target, the asked for dimensions partition the projection, and each required facet is listed just while it has members |
| IndexChecks.IndexIsConsistent | src/Jobs/RetainedJobIndex.php:1429-1466 | the whole check succeeds if and only if the source is covered and the structure holds |
| IndexChecks.PartitionMirrors | src/Jobs/RetainedJobIndex.php:2839-2920 | a dimension that passes has the naive filter in every facet and just the values in use in its catalog |
| IndexChecks.IntactSlotPasses | src/Jobs/RetainedJobIndex.php:1472-1527 | a slot without debris and with exact catalogs passes every structural check |
| FilteredQueries.InspectableSourceSnapshot | src/Jobs/RetainedJobIndex.php:1848-1895 | the snapshot is the projected part of the source with its scores, and there is none while the slot has a gap |
| FilteredQueries.MatchingJobNames | src/Jobs/RetainedJobIndex.php:2763-2795 | the matching classes in use, or nothing when every class in use matches |
| FilteredQueries.SearchKey | src/Jobs/RetainedJobIndex.php:2695-2758 | no key, the empty key, one key or the chunked union: always the members of the matching classes and the id itself |
| FilteredQueries.SearchSelects | src/Jobs/RetainedJobIndex.php:2695-2795 | within the snapshot a search selects exactly the jobs whose class contains the term or whose id it is |
| FilteredQueries.TermIsFoundInWhateverCase | src/Jobs/RetainedJobIndex.php:2763-2795 | a class matches exactly when its folded name has the folded term inside, so a term is found in any spelling that folds alike |
| FilteredQueries.NaiveFilterIsAsked | src/Jobs/RetainedJobIndex.php:2454-2583 | the plain filter is said of the job type and the record alone |
| FilteredQueries.IntersectNarrows | src/Jobs/RetainedJobIndex.php:3404-3416 | intersecting with weights one and zero narrows the first key and keeps its scores |
| FilteredQueries.CandidateKey | src/Jobs/RetainedJobIndex.php:2454-2583 | the candidates of a live query are the projected jobs of the source whose type and record carry every facet asked for, whose class has the folded term inside or whose id it is, and which are among the additional ids, with the scores of the source, whatever an interrupted writer left |
| FilteredQueries.PublishedListsAreNaiveExactlyWhenClean | src/Jobs/RetainedJobIndex.php:2594-2690 | published lists are the naive filter of the projection for every query if and only if no facet holds debris |
| FilteredQueries.InterruptedRebuildLeavesDebris | src/Jobs/RetainedJobIndex.php:1530-1541 | a rebuild that stops after its first command leaves every former facet member as debris in a sound slot that covers an empty source and passes the checks, and a published list of that slot is not the naive filter |
| FilteredQueries.SynchronizeOverDebris | src/Jobs/RetainedJobIndex.php:205-423 | the next synchronization reports success over that debris and keeps it, so it is published |
| Lineages.AddReferences | src/Batches/BatchFailedJobLineages.php:41-55 | one job adds exactly its links, in both directions, and its reports win over the assumed status of an origin |
| Lineages.Collect | src/Batches/BatchFailedJobLineages.php:22-55 | nodes, edges and statuses are what the jobs describe, skipping jobs without an id; of several jobs with one id the last is the node, and of several reports on an id the last one counts |
| Lineages.Component | src/Batches/BatchFailedJobLineages.php:151-174 | the search returns exactly the connected component of its start, each id once, and leaves the visited ids closed |
| Lineages.CountAttempts | src/Batches/BatchFailedJobLineages.php:90-107 | attempts of retained jobs plus one per reference that is not pending, complete when nothing was guessed |
| Lineages.AttemptsAreTriesAndReruns | src/Batches/BatchFailedJobLineages.php:90-107 | attempts are the tries of the retained jobs, at least one each, and the number of other ids whose retry is not pending |
| Lineages.RowsComeFrom | src/Batches/BatchFailedJobLineages.php:64-119 | every row describes a component, a component without completed jobs has one, and none has two |
| Lineages.SortRows | src/Batches/BatchFailedJobLineages.php:121-124 | rows are sorted from the latest failure to the earliest, those of one time in the order given |
| Lineages.Summarize | src/Batches/BatchFailedJobLineages.php:20-133 | the components partition all mentioned ids; a component has a row exactly when it has a retained job, none reported completed and one that failed last can be presented; the row shows that job, every retained try and every rerun; rows come latest first, equal times in order of discovery |
| Lineages.AttemptsAreConserved | src/Batches/BatchFailedJobLineages.php:90-107 | over all components the attempts add up to one count per mentioned id |
| Lineages.SharedIdSharedComponent | src/Batches/BatchFailedJobLineages.php:151-174 | two components that share an id are the same, also across permuted inputs |
| Lineages.OrderDoesNotMatter | src/Batches/BatchFailedJobLineages.php:20-133 | with distinct ids and one status per retry, grouping, attempts, completeness and completion ignore the order of the jobs; so do the rows when no two jobs share failure time and index |
| BatchClearing.VerifiedFailedParents | src/Batches/ClearableBatches.php:269-311 | verified are the requested jobs that the answer holds exactly once and settled; none when the request fails |
| BatchClearing.ConfirmedIsBackOnce | src/Batches/ClearableBatches.php:269-311 | confirmed by its records in an answer is a job that occurs there once with every retry over |
| BatchClearing.HasNoActiveRetry | src/Batches/ClearableBatches.php:313-348 | every retry has an id and is completed or failed; anything unreadable counts as active |
| BatchClearing.StrikeUnverified | src/Batches/ClearableBatches.php:248-262 | a candidate is struck only for a failed job of its own that is not confirmed or that some failing request asks for |
| BatchClearing.ClearableCandidateIds | src/Batches/ClearableBatches.php:231-263 | the ids kept belong to clearable candidates, and to all of them for whose failed jobs no request fails |
| BatchClearing.SelectPage | src/Batches/DatabaseBatchQuery.php:296-331 | a page is the first candidate rows beyond an id, by id |
| BatchClearing.NothingSkipped | src/Batches/DatabaseBatchQuery.php:287-372 | between two neighbours of a page there is no candidate, although earlier rows have been deleted meanwhile |
| BatchClearing.BatchTable.ClearBatches | src/Batches/Actions/ClearBatches.php:24-39 | deleting while scanning removes only batches that are over, in scope and settled, each at most once, counts them, and removes all of them for whose failed jobs no request fails |
| BatchClearing.WantedMayGo | src/Batches/DatabaseBatchQuery.php:287-331 | the batches to be cleared are those that are over and in scope, with readable failed jobs each stored once and settled |
| BatchClearing.DatabaseCounts | src/Batches/ClearableBatches.php:124-156 | the counts are the numbers of clearable batches per scope; finished is complete plus incomplete |
| BulkOperations.Operation.NextChunk | src/BulkOperations/BulkOperationSnapshot.php:112-132 | a chunk is the first hundred targets in rank order without an empty id, none removed; an empty chunk means that at most the empty id is left |
| BulkOperations.IntegerKeysAreIntegers | src/BulkOperations/BulkOperationSnapshot.php:51-62 | the members that PHP turns into integer keys, and a copy drops, are the decimal texts of the 64-bit integers |
| BulkOperations.TextKeysKeepOrder | src/BulkOperations/BulkOperationSnapshot.php:51-68 | the other members are copied in rank order |
| BulkOperations.RescoredIsInLastOrder | src/BulkOperations/BulkOperationSnapshot.php:78-104 | ids from a stream stand where they come last, without the empty id |
| BulkOperations.SkipsIs | src/FailedJobs/Actions/RetryAllFailedJobs.php:36-64 | a target is passed over unless the last job that came back for it is of the connection and queue asked for |
| BulkOperations.Operation.Do | src/BulkOperations/BulkOperationSnapshot.php:138-179 | one command, unless the worker is interrupted before it; the log stays in order, the targets left are those not acknowledged, the counter is the number counted |
| BulkOperations.CountedBetween | src/BulkOperations/BulkOperationSnapshot.php:138-179 | in every log in order the confirmed targets are no more than the counted ones, and these no more than the successes |
| BulkOperations.Operation.ClearChunk | src/FailedJobs/Actions/ClearFailedJobs.php:21-57 | the outcomes of a chunk: completed with all targets acknowledged, continuing with the first hundred acknowledged, interrupted with the rest intact, or missing; every target acknowledged was deleted, forgotten and counted right before |
| BulkOperations.ClearAll | src/FailedJobs/Actions/ClearFailedJobs.php:21-57 | a completed clearing has deleted, forgotten, counted and acknowledged exactly the non-empty targets; its total exceeds their number by at most the interruptions; without interruptions it completes |
| BulkOperations.Operation.RetryOne | src/FailedJobs/Actions/RetryAllFailedJobs.php:46-64 | the commands on one target are exactly: pass over and acknowledge, or retry, count if that worked, and acknowledge; an interruption leaves a first part of them |
| BulkOperations.Operation.RetryChunk | src/FailedJobs/Actions/RetryAllFailedJobs.php:20-82 | the first hundred targets are acknowledged unless the worker is interrupted; a target is retried exactly when the last job its chunk's request brought back for it matches, passed over otherwise, and acknowledged only right after that or after being counted |
| BulkOperations.MatchingTargetsAreRetried | src/FailedJobs/Actions/RetryAllFailedJobs.php:36-64 | whoever was acknowledged was retried on a request that matched, or passed over on one that did not |
| BulkOperations.RetryAll | src/Batches/Actions/RetryQueueBatches.php:30-85 | completion means that every non-empty target was acknowledged in that way; the counter lies between the confirmed targets and the successful retries, which differ by at most the interruptions |
| PendingSnapshot.DelayedIsSplit | src/Jobs/PendingJobStateIndex.php:152-177 | the two copies of the delayed set split it by the moment of the snapshot |
| PendingSnapshot.FirstsAreFirst | src/Jobs/PendingJobStateIndex.php:785-829 | each offered id is listed once, with the first entry that offers it |
| PendingSnapshot.Scan.ScanStructure | src/Jobs/PendingJobStateIndex.php:676-756 | chunked reads equal one full read; a read succeeds exactly when the snapshot has not expired and the count is full or the pass is the second over the ready list, and it falls short only where a copy has vanished |
| PendingSnapshot.Scan.PendingQueueEntries | src/Jobs/PendingJobStateIndex.php:255-292 | an answer holds each id that stands anywhere with what stands at its earliest place, in the order of these places, where only the second pass may have been cut short; without mishaps there is a complete answer |
| PendingSnapshot.ListedInScanOrder | src/Jobs/PendingJobStateIndex.php:255-292 | ready jobs stand first, then released ones, reserved, delayed and due ones; each id is listed with its first payload and score, in that order, also after a cut |
| PendingSnapshot.PayloadSays | src/Jobs/PendingJobStateIndex.php:785-829 | what the id of a payload is, and when a job counts as released from its delay |
| PendingSnapshot.ReadyListIsSplit | src/Jobs/PendingJobStateIndex.php:1391-1408 | every valid item of the ready list is offered by exactly one of its two passes |
| PendingSnapshot.CompleteScanListsEverything | src/Jobs/PendingJobStateIndex.php:255-292 | a complete scan lists every valid id of the snapshot exactly once under the first structure that offers it |
| PendingSnapshot.SnapshotCoversTheQueue | src/Jobs/PendingJobStateIndex.php:131-193 | nothing valid in the queue is lost on either side of the snapshot's moment |
| PendingSnapshot.CutPassIsCompleteExactlyWhenTheRestIsOffered | src/Jobs/PendingJobStateIndex.php:745-749 | for every snapshot and every cut of the second ready pass: missing are the released ids behind the cut that nothing else offers, so the list is complete if and only if all of those are offered elsewhere |
| PendingSnapshot.LostSecondPassDropsReleasedJobs | src/Jobs/PendingJobStateIndex.php:745-749 | a snapshot in which such an id is missing |
| Autoscaling.StepsTowardsExactly | src/Dashboard/DashboardData.php:487-513 | a pool moves towards its demand and not past it if and only if a growing one is not over its maximum and a shrinking one not under the minimum |
| Autoscaling.EachPoolGoesAsFarAsItMay | src/Dashboard/DashboardData.php:484-513 | in every order each pool, in range or not, gets the greatest size it may grow to or the least it may shrink to, given its demand, its limits, the shift and the total its predecessors left |
| Autoscaling.NextPoolGoesAsFarAsItMay | src/Dashboard/DashboardData.php:488-510 | for one pool there is just one such size |
| Autoscaling.LimitsLeaveRoom | src/Dashboard/DashboardData.php:479-482 | a pool may grow to what the minimum of the others leaves of the maximum, if that is at least the minimum |
| Autoscaling.PoolsStayInRange | src/Dashboard/DashboardData.php:487-513 | in every order pools that start in range stay there, move towards their demand and by at most the shift |
| Autoscaling.TotalStaysInBounds | src/Dashboard/DashboardData.php:481-516 | in every order the total stays between the lower of start and minimum and the higher of start and maximum |
| Autoscaling.RestsExactlyWhenNoneCanMove | src/Dashboard/DashboardData.php:487-513 | the forecast changes nothing if and only if no pool could move at the current total |
| Autoscaling.SharesAddUp | src/Dashboard/DashboardData.php:457-477 | while there is work the shares hand out exactly the maximum |
| Autoscaling.SharesAreProportional | src/Dashboard/DashboardData.php:461-468 | shares are in proportion to the time to clear or to the ready jobs |
| Autoscaling.WithoutTimeAllOrLeast | src/Dashboard/DashboardData.php:471-473 | when no time is needed, a pool asks for the whole maximum if it has ready jobs and for the minimum otherwise |
| Autoscaling.AscendingOrder | src/Dashboard/DashboardData.php:476 | pools are dealt with from the smallest share to the largest, equal shares in the order given |
| Autoscaling.ProjectedSupervisorProcesses | src/Dashboard/DashboardData.php:449-516 | the loop yields the sum of the pools' next sizes, within the limits when every pool starts in range |
| BatchMetadata.CountTestIsExact | src/Batches/DatabaseBatchMetadataSynchronizer.php:95-102 | with the missing rows in place the counts differ exactly when a row has no batch |
| BatchMetadata.Synchronizer.InsertMissing | src/Batches/DatabaseBatchMetadataSynchronizer.php:46-93 | the chunk loop ends and adds exactly the missing rows, changing no other |
| BatchMetadata.StaleChunk | src/Batches/DatabaseBatchMetadataSynchronizer.php:155-185 | a removed chunk keeps every row with a batch, and one that was not full had all stale rows unless the empty id was one |
| BatchMetadata.Synchronizer.RemoveStaleMetadata | src/Batches/DatabaseBatchMetadataSynchronizer.php:155-185 | the removal loop ends, removes no row with a batch, and all stale rows; but if the empty id is stale, just the first chunk of stale rows without it |
| BatchMetadata.Synchronizer.Sync | src/Batches/DatabaseBatchMetadataSynchronizer.php:29-108 | every batch has its row, existing rows are unchanged, and the ids agree if and only if the empty id was not stale; if it was, which stale rows remain |
| BatchMetadata.Synchronizer.ResolvedMetadata | src/Batches/DatabaseBatchMetadataSynchronizer.php:187-227 | the memorized configuration gives the same row as the configuration itself |
| BatchMetadata.ResolvedSays | src/Batches/DatabaseBatchMetadataSynchronizer.php:187-227 | field by field, and uniquely, what the row of a batch says: its own statement, else the configuration unless that is empty, else the queue "default" |
| CursorCodec.UrlRoundTrip | src/Jobs/RetainedJobCursor.php:213-229 | decoding undoes encoding on every byte string although the padding is stripped |
| CursorCodec.UrlEncodingIs | src/Jobs/RetainedJobCursor.php:213-216 | the encoding is the digits of the bytes with two of them replaced, without dot or padding |
| CursorCodec.SextetsKeepTheBits | src/Jobs/RetainedJobCursor.php:213-216 | three bytes and their four digits are the same 24 bits, and the rest is filled up with zero bits |
| CursorCodec.SameBitsSameText | src/Jobs/RetainedJobCursor.php:213-216 | these bits fix the digits |
| CursorCodec.DigitsAreTheAlphabet | src/Jobs/RetainedJobCursor.php:213-216 | the digits are the alphabet of the standard |
| CursorCodec.DecodesWhatIsSpelled | src/Jobs/RetainedJobCursor.php:218-229 | a text decodes exactly when it spells digits with fitting padding, spaces aside, and then to the bytes of these digits |
| CursorCodec.BytesKeepTheBits | src/Jobs/RetainedJobCursor.php:218-229 | decoding keeps all bits but those at the end that fill no byte |
| CursorCodec.StateRoundTrip | src/Jobs/RetainedJobCursor.php:24-173 | a state the encoder accepts decodes to itself under its own type and query if and only if the text of its score reads back |
| CursorCodec.ForeignCursorIsInvalid | src/Jobs/RetainedJobCursor.php:124-144 | under another type or query the cursor is refused |
| CursorCodec.EncodesExactly | src/Jobs/RetainedJobCursor.php:24-56 | what the encoder accepts some payload reads as, it accepts all usable states that JSON accepts, and no text it makes passes for an absent cursor |
| CursorCodec.DecodesExactly | src/Jobs/RetainedJobCursor.php:87-173 | a cursor is absent exactly when it is none, -1 or empty, and opens to a state exactly when it carries, under the signature of its own text, a payload that describes the state for this type and query |
| CursorCodec.EncodableIsReadable | src/Jobs/RetainedJobCursor.php:24-173 | the usable states are exactly those that some payload reads as |
| CursorCodec.DecodedIsEncodable | src/Jobs/RetainedJobCursor.php:97-173 | whatever decodes could be encoded, and its phase agrees with its version |
| CursorCodec.CursorsAreInjective | src/Jobs/RetainedJobCursor.php:24-85 | two states with the same text are the same state |

## Left out

- Controllers, requests, routes, commands, view data and the React front end: wiring without a property that spans them.
- Horizon's and Laravel's own code: repositories answer as given functions, so no retry is shown to happen at most once.
- Redis client differences, key names, real time-to-live clocks, SQL dialects and collation, and PHP's numeric strings outside the keys of a copied sorted set.
- Rounding: scores, shares and times are exact numbers.
- External deletion of index keys: the slot is changed only by its own writers, and sorted-set scans return each member once.
- The unavailable parts of a summary (src/Queues/QueueJobsData.php:755-776): every read answers.
- The published activity page (src/Queues/QueueJobsData.php:217-247): the same bracketing of one page by two revision reads.
- Row offsets and row numbers of the reserved-first list, which start again in the rest; and the page that orders only delayed jobs by availability.
- KeysetPaging.NothingIsRepeated: a member whose score changes between pages may be shown again, as it would be in the source.
- IndexWriter.Writer.HydrateAndStore: the grace check reads one clock value per id, and whether a job record can be read does not change during one synchronization.
- Trimming of the source and the growing snapshot between two synchronizations of one request (src/Jobs/RetainedJobIndex.php:295-352): each synchronization is modelled against a fixed source.
- The repository fallbacks of batch clearing and of retry snapshots, which scan batches through Laravel's repository; idle expiry of a bulk operation.
- PendingSnapshot.Scan.ScanStructure: the filters that drop payloads of an unexpected type while reading a chunk.
- Batches that appear or disappear while a clearing or a metadata synchronization is under way, apart from its own deletions and insertions.
- Autoscaling.TotalStaysInBounds: a pool that starts outside its range may carry the total past the limits; how far such a pool moves is said by `EachPoolGoesAsFarAsItMay`.
