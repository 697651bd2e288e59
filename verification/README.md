# Verified model of homelab-evidence-mcp

homelab-evidence-mcp is a read-only server that collects evidence from home-lab monitoring
systems (Loki, ntfy, Healthchecks, Beszel, Gatus) and returns it in bounded, ordered and redacted
form. Its core is a set of small stateful components, each with a bound or an order to keep over
every run. This project models those components in Dafny and proves what they keep.

One module stands for one component; `dafny verify dfyconfig.toml` checks them all. `Options` holds the option type.

| module | component |
|---|---|
| `Sorting`, `Evidence` | the documented order of evidence and the newest-k selection |
| `DropOrder`, `Selection`, `Compact` | compact incident mode: reservation, fill, count cut, byte-budget trimming |
| `ByteBudget` | what the byte budget of compact mode is worth |
| `Rotating` | the rotating audit file over storage on which any operation may fail |
| `ToolBudget` | the tool-call semaphore and one-minute window under interleaved callers |
| `Fifo`, `EvidenceCache`, `SourceCache` | the two insertion-ordered caches |
| `Redaction` | bitmap marking and run merging |
| `Healthchecks`, `Beszel` | bounded transition history, consistent paginated collection |
| `LogQL` | the LogQL query printer |

How the modules fit together:

- Code that works on state (the caches, the budget, the audit file, the trimming loop, the
  bitmap) is a class or an array method. Its contract equates the new state with a specification
  function of the old one, or bounds it by a step relation. The theorems are then about that
  function or relation over whole runs.
- Compact mode has one idea behind it. For a sorted input there is one drop sequence: every item
  that is not the newest of its source, oldest first, then the newest item of each source, oldest
  first. The map-based selection and the recounting trim loop both only walk along it
  (`CompactIsOneCut`), and all other facts about compact mode follow from that.
- Both caches are one sequence of entries; the map, the key slice and the byte counter are proved
  to stay in step with it. Lookups in the source cache expire lazily and insertions eagerly; the
  runs show that the difference can never be seen (`ReadsAreInvisible`).
- The audit file keeps a list of everything it ever accepted as a ghost field. Storage failures
  are arbitrary, and a rotation may stop between any two of its steps.

Where the code and the text about it disagree, the model follows the code:

- The tests (`internal/mcpserver/compact_test.go:53-62`) and the incident-context page expect
  `byte_size` to stay within `byte_budget`. The loop measures before the omitted sources and the
  truncation flags are written, so this can fail, at every budget the configuration accepts
  (`ByteBudgetCanBeExceeded`; the least one is 8192, `internal/config/config.go:520`).
  `ByteBudgetMetIff` says exactly when it holds, `MetWhenSurplusSuffices` gives a condition that
  can be told from the input, and `OvershootIsLostNames` bounds the excess by the names of the
  lost sources. The size field itself is measured as zero and filled in last.
- The tool limit is called a rate per minute. It is one for minutes that begin with a window
  (`OneWindowBound`); over all closed intervals it holds for none of positive length
  (`LimitHoldsIff`), and `RateBound` with `RateBoundIsTight` gives the exact bound for each
  length. One minute can see twice the limit.
- In the Beszel collection a later page without pagination ends the collection with success and
  without the count check (lines 175-177). `Fetch` tells this end apart from a complete
  collection, and `FetchCutShort` is a case of it.
- An exact redaction rule whose text overlaps itself leaves trailing bytes of an overlapping
  occurrence unmarked. `ScanCoversAllIff` says for which rules this cannot happen.
- A source-cache lookup keeps an entry at the very instant of its deadline and an expiry walk
  drops it; the two comparisons are modelled as they are.

## Model

| member | source | states |
|---|---|---|
| Sorting.StableSort | internal/evidence/evidence.go:136-153 | the in-place stable sort leaves exactly the stable sort of the old contents in the slice |
| Sorting.SortStable | internal/evidence/evidence.go:136-153 | elements that tie keep their relative order, for every strict weak order |
| Sorting.StableSortUnique | internal/evidence/evidence.go:136-153 | a sequence is the result of the stable sort if and only if it is ordered and holds the same tie groups in the same order |
| Evidence.ItemLessOrder | internal/evidence/evidence.go:134-152 | the documented comparator is a strict weak order, and only items with equal ids can tie |
| Evidence.ItemLessKeys | internal/evidence/evidence.go:137-151 | the rank and direction of every key: the older item first, then the smaller source, source identity and position, and the smaller id last |
| Evidence.TextLessMeaning | internal/evidence/evidence.go:141-151 | text order is decided at the first place in which two texts differ, and a proper prefix comes first |
| Evidence.RelabelSort | internal/evidence/evidence.go:134-152 | replacing all opaque ids leaves the sorted order as it was, for items of which no two share time, source, identity and position |
| Evidence.RelabelKeepNewest | internal/evidence/evidence.go:123-132 | under the same condition the same items are kept whatever their ids are |
| Evidence.KeepNewestInPlace | internal/evidence/evidence.go:123-132 | the slice is sorted in place, the returned tail is the newest-k selection, and the flag is set exactly when something was cut |
| Evidence.KeepNewestMeaning | internal/evidence/evidence.go:123-132 | what is kept and what is dropped make up the input, and no dropped item sorts after a kept one |
| Evidence.KeepNewestByTime | internal/evidence/evidence.go:123-132 | in terms of time alone: the result stands oldest first, and nothing left out is later than anything kept |
| Evidence.KeepNewestArrivalOrder | internal/evidence/evidence.go:125-132 | with unique ids the selection depends on the multiset of items only |
| Evidence.NewestOfConcat | internal/correlation/correlate.go:15-17 | the newest k of a merged list depend only on the newest k of each part |
| Evidence.LimitsCompose | internal/correlation/correlate.go:15-17 | cutting every one of any number of sources to its own limit first does not change the timeline when each limit covers the timeline's, ties included and without unique ids |
| Evidence.LimitIsSafeIff | internal/adapters/loki/loki.go:201-204 | a per-source limit is harmless beside every other evidence if and only if it keeps all items or is at least the final limit |
| DropOrder.RemainingTwice | internal/mcpserver/compact.go:92-110 | dropping a and then b items equals dropping a + b items of the original: recounting after each drop never changes the sequence |
| DropOrder.RemainingMultiset | internal/mcpserver/compact.go:92-110 | what remains and the dropped prefix of the drop sequence make up the input |
| DropOrder.RemainingOrdered | internal/mcpserver/compact.go:107 | the items that remain stay in evidence order |
| DropOrder.RemainingKeepsLatest | internal/mcpserver/compact.go:88-90 | a source that still has an item after any number of drops still has its newest one |
| DropOrder.RemainingLosesSource | internal/mcpserver/compact.go:88-90 | a source is lost only when every source left is down to one item |
| DropOrder.DropFirstRepeated | internal/mcpserver/compact.go:97-107 | removing the first item whose source occurs again removes the head of the drop sequence |
| DropOrder.FillSelects | internal/mcpserver/compact.go:38-48 | a fill that stopped at the limit, cut to its newest k, is what the drop sequence leaves over |
| Selection.SelectedItems | internal/mcpserver/compact.go:79-86 | the map's values, each once and in order, whatever order the map is walked in |
| Selection.TrimToNewest | internal/mcpserver/compact.go:67-77 | the map of the newest entries, for any ordered enumeration of the map |
| Selection.Reserve | internal/mcpserver/compact.go:22-37 | the reserved map holds exactly the newest item of each source |
| Selection.FillByNewest | internal/mcpserver/compact.go:38-45 | the fill adds a newest-first run of the rest, stops at the limit and never passes it |
| Selection.SelectByCount | internal/mcpserver/compact.go:22-52 | reservation, fill and cut together leave the sorted input without the first n - maxItems items of the drop sequence |
| Compact.CountSources | internal/mcpserver/compact.go:93-96 | every source that occurs is counted with its number of items |
| Compact.DropIndex | internal/mcpserver/compact.go:93-106 | the index chosen from the counts is the next item of the drop sequence |
| Compact.TrimToBudget | internal/mcpserver/compact.go:88-129 | the loop leaves the bundle after the least number of drops that fits or empties it, reports whether it dropped any, and records the omitted sources |
| Compact.DropsIsLeast | internal/mcpserver/compact.go:92 | no smaller number of drops fits the budget, and the chosen one fits unless nothing is left |
| Compact.CollectOmitted | internal/mcpserver/compact.go:111-127 | the two passes over items and outcomes compute the specified omitted sources |
| Compact.OmittedSourcesMeaning | internal/mcpserver/compact.go:111-127 | the omitted sources are exactly the kinds that contributed and have no item left, strictly ascending |
| Compact.SourceHadItems | internal/mcpserver/compact.go:131-139 | true exactly when some outcome of the kind reported items |
| Compact.CompactIncident | internal/mcpserver/compact.go:16-65 | for all inputs, repeated ids included: items returned plus items omitted equal the input, the result is an ordered part of it, the truncation flag is set exactly when it was or something is omitted, the budget is recorded, the size is that of the result but for its size field, and the omitted sources are those that reported items and have none left; with unique ids also the two finer flags, and the whole output bundle is the specified one |
| Compact.CompactFields | internal/mcpserver/compact.go:46-64 | every field of the result other than the items, from the input and the number of omitted items alone |
| Compact.CompactKeepsNewest | internal/mcpserver/compact.go:88-90 | every source with an item in the result has one there that no input item of it is later than |
| Compact.CompactIsOneCut | internal/mcpserver/compact.go:16-65 | for every size function and limit the result is one cut of the drop sequence of the sorted input, as deep as the omitted count |
| Compact.CompactConserves | internal/mcpserver/compact.go:49-55 | the input is, as a multiset, the returned items and the dropped prefix of the drop sequence |
| Compact.CompactCutsToFirstFit | internal/mcpserver/compact.go:46-55 | the cut is as deep as the item limit forces, and from there to the first bundle that fits |
| Compact.CompactArrivalOrder | internal/mcpserver/compact.go:16-65 | the whole output bundle is the same for every arrival order of the items |
| Compact.CompactProtectsSources | internal/mcpserver/compact.go:88-90 | a source with an item in the result has its newest one there; a source without any was lost only after no source had two |
| Compact.CompactNested | internal/mcpserver/compact.go:16-65 | a compact view that omits more holds a subset of any that omits less, under any limits and size functions |
| Compact.TighterLimitsDropMore | internal/mcpserver/compact.go:16-65 | a smaller item limit and a smaller byte budget never bring an item back, for sizes that read neither of the two fields the limits set |
| Compact.SmallerBudgetCanKeepMore | internal/mcpserver/compact.go:18 | for a size that reads the byte budget this fails: a bundle of which budget 1 keeps more than budget 2 |
| Compact.SelectionMeaning | internal/mcpserver/compact.go:22-52 | when the sources fit the item limit, the selection is full, has every source's newest item, and every unselected item sorts before every selected one that is not reserved; otherwise it is the newest maxItems of the reserved items |
| ByteBudget.ByteBudgetMetIff | internal/mcpserver/compact.go:54-63 | for sizes made of a frame, items and names, the reported size is within the budget if and only if the budget lies in one of the steps whose ends are sums over the drop sequence of the sorted input |
| ByteBudget.ItemsOutweighFrame | internal/mcpserver/compact.go:107-108 | those steps descend, as the condition asks, when no item is shorter than what the omitted-items count can grow by |
| ByteBudget.MetWhenNothingIsLost | internal/mcpserver/compact.go:54-63 | if some cut fits and no contributing source is lost, the budget is met |
| ByteBudget.MetWhenSurplusSuffices | internal/mcpserver/compact.go:88-92 | if every contributing source has an item and some cut that leaves every source one fits, the budget is met; all of this can be told beforehand |
| ByteBudget.OvershootIsLostNames | internal/mcpserver/compact.go:111-128 | if any cut fits, the excess is at most what the names of the lost sources cost |
| ByteBudget.PartsClose | internal/mcpserver/compact.go:111-128 | sizes made of parts meet what the two bounds above ask of a size, when the frame does not grow by closing |
| ByteBudget.ByteBudgetCanBeExceeded | internal/mcpserver/compact.go:54-63 | for every budget of at least 8192 bytes, a bundle of two sources that is trimmed until it fits exactly and then reported over its budget by the name of the source it lost |
| Rotating.OpenRotating | internal/audit/rotating.go:28-52 | a successful open keeps the files, makes a missing primary, and applies the default limits; healthy storage always opens |
| Rotating.ShiftedAt | internal/audit/rotating.go:102-114 | slot by slot, what the shifting loop has done when it reaches an index: files from there up have moved on by one, the oldest is gone, the slot is free, and no other is touched |
| Rotating.RotatingFile.ShiftAll | internal/audit/rotating.go:102-114 | the descending loop moves every file up by one slot, or stops in one of the states listed by the break-off relation |
| Rotating.RotatingFile.RotateLocked | internal/audit/rotating.go:93-122 | either the full rotation with an open empty primary, or a closed writer in a break-off state, and only on failing storage |
| Rotating.RotatingFile.ReopenLocked | internal/audit/rotating.go:124-138 | a reopen keeps the primary's contents and takes its true size |
| Rotating.RotatingFile.Write | internal/audit/rotating.go:54-78 | each refusal and each short write has its own error, no error means that the whole record, which then fits, is accepted, healthy storage never fails, and every call is a step of the write relation that keeps the invariant |
| Rotating.RotatingFile.Close | internal/audit/rotating.go:80-91 | the writer is closed for good whatever the close reports, and no file changes |
| Rotating.BreaksOffLosesOldest | internal/audit/rotating.go:93-122 | wherever a rotation breaks off, the retained records are all that were there, or all but the oldest file's |
| Rotating.RotatedLosesOldest | internal/audit/rotating.go:93-122 | a rotation that goes through loses exactly the oldest file, the primary when there is one file only |
| Rotating.WriteLosesOldestOnly | internal/audit/rotating.go:54-78 | a write appends what it accepted and nothing else happens, except that the oldest file may go, and only when the record did not fit |
| Rotating.WriteKeepsHighSlots | internal/audit/rotating.go:102-114 | backups numbered beyond the file limit are never touched |
| Rotating.WriteKeepsInv | internal/audit/rotating.go:54-78 | after every write, failed or not, the open size is the file size and the retained records are a suffix of the accepted ones |
| Rotating.WriteErrors | internal/audit/rotating.go:58-77 | in every step: which error means what, and what of the record has been accepted under it |
| Rotating.ReportedIsAccepted | internal/audit/rotating.go:54-78 | over every run, a write reported without an error stands whole in what was accepted, behind everything accepted before it; any other has left less than its record |
| Rotating.RunKeepsInv | internal/audit/rotating.go:54-138 | every run keeps the invariant, and what the writer accepted is the first contents followed by the chunks of the run's writes |
| Rotating.RunRetainsSuffix | internal/audit/rotating.go:54-138 | over every run with any failures, crashes and restarts, the files read from the oldest backup to the primary are a contiguous suffix of the first contents followed by all accepted chunks |
| Rotating.RunLosesFiles | internal/audit/rotating.go:70-74 | over every run, what is gone is at most one whole file for each write that did not fit, and no file of it was larger than the limit |
| Rotating.FailingWritesLoseFiles | internal/audit/rotating.go:102-114 | a run reaches that bound with nothing accepted: while the primary cannot be renamed, each of k failing writes costs one more full backup |
| Rotating.RunKeepsBound | internal/audit/rotating.go:70-77 | no file ever holds more than max_bytes unless it did at the start |
| ToolBudget.Budget.constructor | internal/mcpserver/app.go:229-241 | limits that are not positive become 120 a minute and 8 at once, and the window starts empty |
| ToolBudget.Budget.Acquire | internal/mcpserver/app.go:243-265 | without interleaving, in the fields alone: refused with no change exactly when full; refused with the slot back exactly when the window is young and its limit used up; admitted otherwise, with one slot more and one call more in the window, which starts anew after a minute |
| ToolBudget.NextKeepsSlots | internal/mcpserver/app.go:247-275 | every interleaved step keeps the semaphore equal to the number of calls between slot-take and slot-return, within its capacity |
| ToolBudget.NextKeepsWindows | internal/mcpserver/app.go:252-264 | every step keeps windows a minute apart, each admission in its window's minute, and no window over its limit |
| ToolBudget.RunKeepsInv | internal/mcpserver/app.go:243-275 | both invariants hold in every state that any interleaving of any number of callers reaches |
| ToolBudget.SlotsNeverBlock | internal/mcpserver/tools.go:65-71 | in every reachable state the give-back receive has a slot to take and so has every release, so neither blocks nor takes its default branch |
| ToolBudget.RateBound | internal/mcpserver/app.go:252-264 | in every run under any interleaving, a closed interval contains at most perMin admitted calls for each minute it has begun, and perMin more |
| ToolBudget.RateBoundIsTight | internal/mcpserver/app.go:252-264 | for every limit, capacity and length there is a run that reaches that bound |
| ToolBudget.OneWindowBound | internal/mcpserver/app.go:252-264 | an interval in which no window begins, its left end aside, contains at most perMin admitted calls |
| ToolBudget.LimitHoldsIff | internal/mcpserver/app.go:252-264 | every run keeps every closed interval of a given length within perMin if and only if that length is zero |
| Fifo.CompactOrder | internal/evidence/cache.go:158-165 | compacting the key slice removes every occurrence of the key and keeps the order of the rest |
| Fifo.AliveIsSuffix | internal/evidence/cache.go:142-149 | with a fixed time to live, expiry removes exactly a prefix of the insertion order |
| Fifo.ExpiryWalk | internal/evidence/cache.go:142-149 | dropping expired keys in any map order leaves the entries that are alive, in order |
| EvidenceCache.Cache.constructor | internal/evidence/cache.go:52-72 | the limits after defaults and ceilings, and an empty cache |
| EvidenceCache.Cache.RemoveLocked | internal/evidence/cache.go:151-166 | map, order and byte counter lose the one entry together, or nothing changes |
| EvidenceCache.Cache.ExpireLocked | internal/evidence/cache.go:142-149 | the entries become those alive, and the counter grows by the number removed |
| EvidenceCache.Cache.Put | internal/evidence/cache.go:74-97 | keeps map, order, byte counter and both limits in step, and the new entries and counters are the specified expiry, replacement and eviction, whose meaning the rows below state |
| EvidenceCache.Cache.Get | internal/evidence/cache.go:106-121 | expires, and serves the live entry of the id marked as cached, or nothing |
| EvidenceCache.Cache.ReadStats | internal/evidence/cache.go:123-140 | the reported size and bytes are those of the live entries |
| EvidenceCache.EvictKeepsLongestSuffix | internal/evidence/cache.go:93-96 | eviction keeps the longest suffix of the insertion order that is within the item limit and the byte budget |
| EvidenceCache.OwnPutSurvives | internal/evidence/cache.go:74-97 | with room for any item at all, an item with an id that is within the byte budget is stored in the last place, under its id, with its size and its deadline |
| EvidenceCache.PutKeepsOthers | internal/evidence/cache.go:83-96 | what stands before it was there before, has not expired, and is of other ids |
| EvidenceCache.PutIsServed | internal/evidence/cache.go:74-121 | a lookup after such a put serves the item, marked as cached, until its deadline, whatever the cache held before |
| EvidenceCache.OtherPuts | internal/evidence/cache.go:77-88 | a put without an id, or into a cache without room for any item, changes nothing; an oversized one removes exactly what has expired and what its id had, and is counted |
| EvidenceCache.PutCounters | internal/evidence/cache.go:83-96 | what the three counters count, each by itself |
| EvidenceCache.RetainedIsSuffix | internal/evidence/cache.go:76-166 | after every run the entries are a suffix of the history of last puts, no more than the item limit and no larger than the byte budget |
| EvidenceCache.ExpiryTakesPrefix | internal/evidence/cache.go:142-149 | what expiry removes after any run is a prefix of the entries |
| EvidenceCache.HistoryIsLastPuts | internal/evidence/cache.go:74-97 | that history holds exactly the last put of each id, unless that put was oversized |
| EvidenceCache.GetReturnsLastPut | internal/evidence/cache.go:106-121 | a lookup after any run returns the last put of the id, unexpired and marked as cached, or nothing |
| EvidenceCache.MissIff | internal/evidence/cache.go:74-121 | a last put is missed if and only if it has expired, or since it was put the entries from it on have exceeded a limit |
| EvidenceCache.MissMeansExpiredOrOldest | internal/evidence/cache.go:93-121 | a last put that is missed before its time is older in the history than everything retained |
| EvidenceCache.Accounting | internal/evidence/cache.go:76-149 | over any run, insertions equal live entries plus evictions, expirations and entries removed by a later put |
| SourceCache.LockedClient.RemoveCacheLocked | internal/httpx/client.go:449-464 | map, order and byte counter lose the one entry together |
| SourceCache.LockedClient.ExpireCacheLocked | internal/httpx/client.go:441-447 | drops exactly the entries whose deadline has been reached |
| SourceCache.LockedClient.EvictLocked | internal/httpx/client.go:422-427 | the loop ends with room for the body, keeps the specified suffix, and never reaches its break |
| SourceCache.LockedClient.CachePut | internal/httpx/client.go:410-439 | keeps both limits, and the entries are the specified expiry, replacement and eviction, whose meaning the rows below state |
| SourceCache.LockedClient.CacheGet | internal/httpx/client.go:394-408 | returns the stored snapshot until after its deadline, and removes an expired one |
| SourceCache.LockedClient.Get | internal/httpx/client.go:288-358 | each way a request can end, with its reply and the cache after it; only a complete response with status 200 is stored |
| SourceCache.LockedClient.ReadStats | internal/httpx/client.go:223-239 | the reported size and bytes are those of the live entries |
| SourceCache.MakeRoomKeepsLongestSuffix | internal/httpx/client.go:422-427 | eviction keeps the longest suffix that leaves room for the body, fewer than 128 entries and the bytes together within 32 MiB |
| SourceCache.FittingPutIsStored | internal/httpx/client.go:410-439 | a body up to the byte bound is stored in the last place with its deadline, behind unexpired entries of other keys that were there before |
| SourceCache.FittingPutIsHit | internal/httpx/client.go:394-439 | the next lookup hits it until its deadline, whatever the cache held before |
| SourceCache.OversizedPutIsIgnored | internal/httpx/client.go:413-416 | a body beyond the bound changes nothing, not even an older entry of its key |
| SourceCache.LookupRemoves | internal/httpx/client.go:394-408 | a lookup removes the entry of its key if that has expired, and nothing else |
| SourceCache.RunWithinLimits | internal/httpx/client.go:410-464 | in every reachable state there are at most 128 entries and 32 MiB, and no key twice |
| SourceCache.ReadsAreInvisible | internal/httpx/client.go:394-408 | lookups and statistics never influence what later insertions leave: right after a fitting put the cache is what the puts alone make it |
| SourceCache.PutsOnlyIsSuffix | internal/httpx/client.go:410-447 | the entries that the puts alone leave are a suffix of the history of fitting puts |
| SourceCache.LastFittingPutStays | internal/httpx/client.go:410-439 | the last fitting put of a run stays in the last place with its deadline, whatever lookups, statistics and oversized puts follow |
| SourceCache.HistoryIsLastPuts | internal/httpx/client.go:410-439 | that history holds exactly the last fitting put of each key |
| SourceCache.HitIsLastFittingPut | internal/httpx/client.go:291-307 | after any interleaving, a hit is the snapshot of the latest fitting put of its key in every field, and unexpired |
| SourceCache.UnexpiredIsHit | internal/httpx/client.go:394-408 | an entry that the puts alone have not evicted is hit until its deadline, whatever was looked up before |
| SourceCache.MissIff | internal/httpx/client.go:394-439 | before its deadline, the last fitting response of a key is missed if and only if the entries from it on have exceeded a limit since |
| SourceCache.HitsAgree | internal/httpx/client.go:348-352 | all hits on a key between two fitting puts of it report one body, status, collection time and truncation flag |
| Redaction.Mark | internal/redaction/redact.go:76-86 | sets exactly the bytes of a valid interval, and keeps the coverage counter equal to the number of marked bytes |
| Redaction.IndexFrom | internal/redaction/redact.go:92-95 | the first occurrence at or behind the offset, or none |
| Redaction.MarkExact | internal/redaction/redact.go:87-104 | one exact rule adds exactly the matches of its non-overlapping scan |
| Redaction.MarkAll | internal/redaction/redact.go:72-118 | despite the early exits, the bitmap is the union of all matches of all rules on the original text |
| Redaction.MatchesAreMarked | internal/redaction/redact.go:105-118 | every match of every regular expression is marked from its first to its last byte |
| Redaction.MarkedIsMatched | internal/redaction/redact.go:87-118 | nothing else is marked: every marked byte lies in such a match or in an occurrence of an exact rule |
| Redaction.Emit | internal/redaction/redact.go:120-141 | the run-merging loop writes the text with each maximal marked run replaced by one marker, and counts those runs |
| Redaction.Apply | internal/redaction/redact.go:67-143 | the sanitized rendering of the union bitmap and its number of runs; the empty text is left alone |
| Redaction.RenderSplits | internal/redaction/redact.go:120-141 | a maximal marked run is one marker and is counted once, and what stands before and behind it is rendered by itself |
| Redaction.RenderPlain | internal/redaction/redact.go:138-141 | text without marks is copied |
| Redaction.CopiedIsNoMatch | internal/redaction/redact.go:105-141 | no byte of the output before sanitizing is copied from a match of a regular expression |
| Redaction.UnmarkedIsCopied | internal/redaction/redact.go:120-141 | every unmarked byte is in the output |
| Redaction.RenderIgnoresMarked | internal/redaction/redact.go:120-142 | texts that differ only in marked bytes have the same output |
| Redaction.RenderLength | internal/redaction/redact.go:120-142 | output length plus marked bytes equals text length plus one marker for each run |
| Redaction.FirstByteRedacted | internal/redaction/redact.go:87-104 | the first byte of every occurrence of an exact rule is marked, overlapping occurrences included |
| Redaction.OccurrencesTouchMarkers | internal/redaction/redact.go:67-143 | wherever the text of an exact rule can be read in the output before sanitizing, some byte of it belongs to a marker |
| Redaction.ScanCoversAllIff | internal/redaction/redact.go:87-104 | a rule's scan marks every byte of every occurrence in every text if and only if no proper prefix of the rule is its suffix |
| Redaction.BorderedIsNotCovered | internal/redaction/redact.go:91-100 | for every other rule, a text with an occurrence whose last byte stays |
| Healthchecks.TagsMatch | internal/adapters/healthchecks/healthchecks.go:219-231 | true exactly when every wanted tag is present under lower case |
| Healthchecks.FilterChecks | internal/adapters/healthchecks/healthchecks.go:192-217 | the subsequence of checks that meet every criterion set; an empty filter selects nothing |
| Healthchecks.MatchingOne | internal/adapters/healthchecks/healthchecks.go:194-214 | a check is left out exactly when it misses a criterion that is set, or when none is set |
| Healthchecks.MatchingConcat | internal/adapters/healthchecks/healthchecks.go:192-217 | filtering goes check by check and keeps their order |
| Healthchecks.CheckLessOrder | internal/adapters/healthchecks/healthchecks.go:251-257 | the comparator of the checks is a strict weak order |
| Healthchecks.CheckLessKeys | internal/adapters/healthchecks/healthchecks.go:251-257 | the order goes by the slug, else the name, else a fixed word, and then by the unique key, ascending |
| Healthchecks.AskedMeaning | internal/adapters/healthchecks/healthchecks.go:242-262 | at most 32 of the selected checks are asked for, and none that is left out comes before one that is asked for |
| Healthchecks.SelectChecks | internal/adapters/healthchecks/healthchecks.go:242-262 | the first 32 selected checks in order, the number left out, and whether a binding matched nothing |
| Healthchecks.ReadFlips | internal/adapters/healthchecks/healthchecks.go:293-319 | the newest 200 usable in-window transitions in time order, whether any were cut, and the number of unusable records |
| Healthchecks.InWindowOne | internal/adapters/healthchecks/healthchecks.go:297-314 | which record is a transition of the window, both ends included, and which is unusable |
| Healthchecks.InWindowConcat | internal/adapters/healthchecks/healthchecks.go:297-314 | records are taken one by one, in their order |
| Healthchecks.NewestMeaning | internal/adapters/healthchecks/healthchecks.go:315-319 | at most 200 transitions are kept, kept and cut ones make up the window in time order, and none that was cut is later than one kept |
| Healthchecks.Transitions | internal/adapters/healthchecks/healthchecks.go:233-328 | the outcome in every case, and when: no match, refused, all requests failed, or the collected items with their counters |
| Healthchecks.CoverageAddsUp | internal/adapters/healthchecks/healthchecks.go:258-327 | selected checks equal omitted plus missing identity plus requests, items are at most 200 for each answered request, and truncated holds exactly when checks were omitted or a check overflowed |
| Healthchecks.ResultMeaning | internal/adapters/healthchecks/healthchecks.go:267-323 | what every counter counts, and that the items are exactly the kept transitions of all answers under their checks |
| Healthchecks.ItemsOfCheck | internal/adapters/healthchecks/healthchecks.go:320-322 | an answered check's newest transitions stand in one block, in order, behind those of earlier checks |
| Beszel.PagesForIsLeast | internal/adapters/beszel/beszel.go:255-262 | the computed page count is the least count from one on that covers the total |
| Beszel.PlainBodies | internal/adapters/beszel/beszel.go:210-236 | which rows a body without pagination yields, in which order its list fields count, and the errors of bodies without a list |
| Beszel.PaginatedBodies | internal/adapters/beszel/beszel.go:237-280 | a body with pagination is accepted exactly when its numbers are there, agree and determine a page count, and yields its items and those numbers; which error it is refused with |
| Beszel.FetchPage | internal/adapters/beszel/beszel.go:143-173 | a usable page within the record bound, or an error of the right kind after which no complete collection exists |
| Beszel.ErrorIsFinal | internal/adapters/beszel/beszel.go:149-197 | after any error there is no complete collection, nor an end by an unpaginated page |
| Beszel.Fetch | internal/adapters/beszel/beszel.go:136-199 | at most 32 requests; the rows are pages 1 to n in order; success is a complete collection or an end by an unpaginated page, and failure means there is neither; each error tells what went wrong, and the next path is tried exactly on a first-page transport error or 404 |
| Beszel.CompleteMeaning | internal/adapters/beszel/beszel.go:181-198 | what a complete collection is: n pages that all announce n pages and the same total, if any, and as many rows, within 32 pages and 6400 rows |
| Beszel.RowsInOrder | internal/adapters/beszel/beszel.go:174 | the rows stand in page order |
| Beszel.FailureIsTold | internal/adapters/beszel/beszel.go:149-197 | which error each answer leads to |
| Beszel.CutShortEndsEarly | internal/adapters/beszel/beszel.go:175-177 | answers that announce two rows, give one, and then end by an unpaginated page: no complete collection exists |
| Beszel.FetchCutShort | internal/adapters/beszel/beszel.go:175-177 | on those answers the collection reports success with one of the two rows |
| Beszel.AllPagesAgree | internal/adapters/beszel/beszel.go:189-198 | once every announced page agrees with the first, the collection is complete or its row count is wrong |
| LogQL.EscapeInOnePass | internal/adapters/loki/loki.go:277-281 | the two replacement passes equal escaping character by character |
| LogQL.LiteralRoundTrip | internal/adapters/loki/loki.go:247-263 | reading an escaped text gives the text back and stops exactly at its own closing quote, whatever follows |
| LogQL.PlainIsEscaped | internal/adapters/loki/loki.go:240-243 | skipping the escape for a text without special characters changes nothing |
| LogQL.BuildQuery | internal/adapters/loki/loki.go:234-266 | a query is built exactly when text and regex pass every check, and is the trimmed selector with the two filters, letter by letter; otherwise the error of the first check that fails |
| LogQL.TextErrorMeaning | internal/adapters/loki/loki.go:236-246 | why a text is refused: a control character, or more than 200 bytes with one more for each quote and backslash |
| LogQL.RegexErrorMeaning | internal/adapters/loki/loki.go:249-262 | why a regex is refused, in the order of the checks |
| LogQL.QueryRoundTrip | internal/adapters/loki/loki.go:234-266 | for every text and regex, the printed filters read back as exactly those two with nothing left over |
| LogQL.QueryIsInjective | internal/adapters/loki/loki.go:234-266 | two requests print the same filters only if they ask for the same thing |

## Left out

- HTTP transport, TLS, redirects, DNS, cancellation and deadlines, the MCP layer and stdio: a fetch is an arbitrary response.
- JSON: decoded records are inputs, and the serialized sizes are arbitrary functions (not negative for a cached item). A marshalling error, which the code turns into a size, is one of their values. Where a theorem asks for a size made of parts, the parts are arbitrary too; that JSON is such a size is not proved.
- Compact.TighterLimitsDropMore: the serialized form does read the byte budget and the selection flag, whose digits and letters may change the size by a few bytes; for such sizes only `CompactNested` is stated.
- The regular-expression engine: each expression contributes an arbitrary list of intervals. Control-character tests, trimming, case folding, lower-casing and key patterns are arbitrary functions, and tags arrive split into words.
- `SanitizeControl`, `ApplyAndTruncate`, `Truncate` and `TruncateBytes`: the sanitizer is a parameter of `Apply`.
- Symlink, permission, chmod and same-file checks of the audit file: they are part of an open that may fail, possibly after creating an empty file. Path errors and directory creation are part of the same failure.
- Other writers to the audit path.
- A failed stat, close or open releases its descriptor; descriptor leaks are not modelled. A single rename, remove or truncate is atomic.
- Rotating.RotatingFile.Write: a short write accepts a prefix of the record, and which one is not determined, because the storage decides.
- Concurrency in the caches and the audit file: each call holds the mutex, so runs are sequences of calls. Only the tool budget has steps outside its mutex, and its callers do interleave.
- Clocks: every reading is an input. Lemmas about runs that need it ask for readings that never go back; no operation does.
- Integer widths: counters, sizes and times are unbounded; all of them stay far below 64 bits in the program.
- Text is a sequence of characters that stand for bytes; bodies are values, so the defensive copies of cached bodies, and aliasing of items, cannot be seen.
- Compact.CompactIncident: without unique ids only conservation and order are stated, because ids come from a random source and repeated ones make the map walk decide. The item limit is not negative, as configuration demands.
- The item slice of the bundle and the key slices of the caches are sequence fields that are reassigned, so sharing of their backing arrays is not captured.
- The sort library is an in-place insertion sort; any stable sort has the same result (`StableSortUnique`).
- `SourceCache.LockedClient.Get` starts at the cache key: request checks, headers, URL composition and keyed fingerprints are not part of this model. Neither are the headers of a reply beside the collection time and the truncation flag.
- The observation time and the path fallback around the Beszel collection, and the item fields that a Healthchecks transition is dressed with.
- The partial result that `Transitions` returns beside an error, and the listing request before the selection.
- The limits that `Stats` repeats from the configuration.
- Nil receivers, configuration parsing, registry, doctor, Gatus, ntfy, freshness and severity tables, summaries and the audit logger: easy members beside these.
