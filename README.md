# GemFire object-size analysis functions, modelled in Dafny

This project models three server-side GemFire functions that measure how
large the objects stored in a cache are, so that an operator can choose the
G1 heap region size (`-XX:G1HeapRegionSize`). Any object of half a region or
more is "humongous" for G1.

- **MaxSizeSummarizer** walks every region of the member's cache. For each
  non-empty region it sizes at most 100 non-null values, using an OQL query
  with `LIMIT 100` for regions of more than 10000 entries and key-set
  iteration otherwise. It reports each region's largest object, or the error
  that stopped the region's analysis. It then reports the largest object of
  all and a recommendation: 16M regions below 8 MiB, 32M below 16 MiB,
  otherwise keep 32M with a humongous-object warning. The report lines go
  back one by one, the last through `lastResult`.
- **TopNByteSizesPerServerFunction** sizes every entry of one region with
  the reflection sizer. It keeps the N largest (N = 3, or the first
  argument) in a min-heap by offering each entry and polling the head
  whenever the heap holds more than N. It sends the retained entries back in
  heap order (or `0` when there are none) and summarises them largest first
  with their total.
- **RegionSizeAnalyzer** samples the values of one region. Its loop has a
  stride test (`index % interval == 0`, with `interval = max(1, entries /
  100000)`), but that test never takes effect: the loop stops as soon as
  100000 samples are taken, because the 10-entry heap is full by then. So
  the function sizes exactly the first 100000 non-null values. It tallies the count and total size and keeps the 10 largest in a
  bounded heap, where a new sample replaces the head only when strictly
  larger. It returns one result map: empty region, error, or the sorted
  largest entries, the average size, the largest size and the G1
  recommendation.

Module layout:

- `Gemfire` holds the cache as the functions see it: values, entries,
  regions with their subregions, and the result sender.
- `Recommender` holds the region-size rule shared by two functions.
- `TopK` holds the priority queue, the bounded-selection invariant and the
  descending sort.
- Each function has its own module.

The central property is the top-K invariant. After any number of entries,
the heap holds exactly min(N, entries seen) of them, and every entry it let
go is no larger than every entry it holds. The largest entry of the sorted
report is therefore the largest entry seen, and that entry drives the
recommendation. For RegionSizeAnalyzer the model also proves that, with the
budget (100000) at least the heap size (10), the loop sizes exactly the
first 100000 non-null values. The stride can never skip an entry before the
loop stops.

External behaviour is passed in as parameters:

- the deep object-graph sizer, as `Value -> Measure`: a byte count or the
  message of the exception it throws;
- the reflection sizer, as `Option<Value> -> nat`;
- the OQL query service, as a function from the region path to the
  results or the exception message;
- the member name.

The iteration orders of Java hash sets and of the priority queue are not
fixed: region and subregion sets are sequences in iteration order, and the
region loop picks any remaining region. The order it picked is returned as
a ghost value. Key sets are the order of a region's entry sequence.

## Model

| member | source | states |
|---|---|---|
| Gemfire.PresentMembers | custom-functions/src/com/broadcom/functions/MaxSizeSummarizer.java:77-78 | the values that get sized are exactly the entries whose value is not null |
| Gemfire.PresentAppend | custom-functions/src/com/broadcom/functions/RegionSizeAnalyzer.java:51-54 | skipping null values entry by entry over a split walk gives the same non-null entries as over the whole |
| Gemfire.FirstPresentReached | custom-functions/src/com/broadcom/functions/RegionSizeAnalyzer.java:72 | a walk that has met exactly k non-null values has met the first k of the region |
| Gemfire.FirstPresentFound | custom-functions/src/com/broadcom/functions/MaxSizeSummarizer.java:73-83 | a walk that stopped after k non-null values, or ran out of keys with at most k, met exactly the first k |
| Gemfire.Sender.SendResult | custom-functions/src/com/broadcom/functions/MaxSizeSummarizer.java:129 | appends one `sendResult` message to what the caller receives |
| Gemfire.Sender.LastResult | custom-functions/src/com/broadcom/functions/MaxSizeSummarizer.java:131 | appends the closing `lastResult` message |
| Recommender.Recommend | custom-functions/src/com/broadcom/functions/MaxSizeSummarizer.java:111-122 | 16M exactly when the largest object is below 8 MB (bytes/1024/1024), 32M exactly when it is in [8, 16), keep 32M with the humongous warning exactly when it is 16 MB or more; both directions of each case |
| Recommender.RecommendBoundaries | custom-functions/src/com/broadcom/functions/RegionSizeAnalyzer.java:100-109 | exactly 8 MiB already needs 32M regions and exactly 16 MiB is humongous; one byte less stays in the lower class |
| TopK.MinIndex | custom-functions/src/com/broadcom/functions/TopNByteSizesPerServerFunction.java:91 | finds an index holding a smallest entry, the one a poll removes |
| TopK.MinQueue.constructor | custom-functions/src/com/broadcom/functions/TopNByteSizesPerServerFunction.java:84 | a new priority queue is empty and ordered by size |
| TopK.MinQueue.Size | custom-functions/src/com/broadcom/functions/RegionSizeAnalyzer.java:62 | the size is the number of queued entries, with multiplicity |
| TopK.MinQueue.Offer | custom-functions/src/com/broadcom/functions/TopNByteSizesPerServerFunction.java:89 | the queue's contents grow by exactly the offered entry |
| TopK.MinQueue.Peek | custom-functions/src/com/broadcom/functions/RegionSizeAnalyzer.java:64 | the head is a queued entry no larger than any other |
| TopK.MinQueue.Poll | custom-functions/src/com/broadcom/functions/TopNByteSizesPerServerFunction.java:91 | removes and returns one smallest entry; nothing else changes |
| TopK.OfferPollKeepsDominance | custom-functions/src/com/broadcom/functions/TopNByteSizesPerServerFunction.java:89-92 | offering and then polling the head keeps every dropped entry at or below every kept one |
| TopK.ReplaceMinKeepsDominance | custom-functions/src/com/broadcom/functions/RegionSizeAnalyzer.java:64-67 | on a full heap, replacing the head by a strictly larger entry keeps dropped entries at or below kept ones |
| TopK.ReplaceCounts | custom-functions/src/com/broadcom/functions/RegionSizeAnalyzer.java:65-66 | poll-then-offer moves the head to the dropped entries and keeps the heap size |
| TopK.DiscardKeepsDominance | custom-functions/src/com/broadcom/functions/RegionSizeAnalyzer.java:64 | on a full heap, an entry no larger than the head is dropped without breaking the invariant |
| TopK.KeptMaxIsOverallMax | custom-functions/src/com/broadcom/functions/RegionSizeAnalyzer.java:97 | under the invariant, the largest kept entry is the largest entry seen |
| TopK.SortedCopy | custom-functions/src/com/broadcom/functions/TopNByteSizesPerServerFunction.java:104-105 | the list copied from the heap and sorted is largest first and a permutation of the heap's contents |
| TopK.SortDescending | custom-functions/src/com/broadcom/functions/RegionSizeAnalyzer.java:77-78 | sorting in reverse natural order leaves the list largest first and a permutation of itself |
| TopK.InsertInto | custom-functions/src/com/broadcom/functions/RegionSizeAnalyzer.java:78 | one insertion step grows the sorted prefix by one entry and permutes the list |
| TopK.SumRankAppend | custom-functions/src/com/broadcom/functions/TopNByteSizesPerServerFunction.java:138-141 | the running total grows by each entry's size |
| TopK.SumRankPermutation | custom-functions/src/com/broadcom/functions/TopNByteSizesPerServerFunction.java:138-150 | the total over the sorted list equals the total over the heap in any order |
| TopNByteSizesPerServerFunction.EntrySize.CompareTo | custom-functions/src/com/broadcom/functions/TopNByteSizesPerServerFunction.java:38-41 | -1, 0 or 1 as the size is smaller, equal or larger; the key plays no part |
| TopNByteSizesPerServerFunction.Replies | custom-functions/src/com/broadcom/functions/TopNByteSizesPerServerFunction.java:107-119 | one message per heap entry in iteration order, all `sendResult` but the last, which is `lastResult` |
| TopNByteSizesPerServerFunction.OfferThenTrim | custom-functions/src/com/broadcom/functions/TopNByteSizesPerServerFunction.java:89-92 | after one offer-and-trim round the heap still holds Bound(N, offered) entries that dominate every polled one, and heap plus polled is everything offered |
| TopNByteSizesPerServerFunction.OfferCounts | custom-functions/src/com/broadcom/functions/TopNByteSizesPerServerFunction.java:89-90 | after an offer that leaves the heap within N, nothing has been polled yet and the invariant holds as is |
| TopNByteSizesPerServerFunction.SelectLargest | custom-functions/src/com/broadcom/functions/TopNByteSizesPerServerFunction.java:84-93 | the heap ends with min(N, entries) entries (none for N <= 0); with the polled ones it is exactly the offered entries (`Measured`: one entry-size per region entry, in order, with its key and the reflection sizer's result for its value, null included), and no polled entry is larger than a kept one |
| TopNByteSizesPerServerFunction.TotalSize | custom-functions/src/com/broadcom/functions/TopNByteSizesPerServerFunction.java:138-141 | the summary total is the sum of the listed sizes |
| TopNByteSizesPerServerFunction.SendEntries | custom-functions/src/com/broadcom/functions/TopNByteSizesPerServerFunction.java:107-119 | the sender receives exactly the replies for the heap's iteration order |
| TopNByteSizesPerServerFunction.Execute | custom-functions/src/com/broadcom/functions/TopNByteSizesPerServerFunction.java:65-128 | the retained entries are a sub-multiset of the region's measured entries of size Bound(N, region size) that dominates the rest; an empty heap sends just `0`; otherwise every retained entry is sent once and the stream is closed, and the summary lists them largest first with their total |
| RegionSizeAnalyzer.EntrySize.CompareTo | custom-functions/src/com/broadcom/functions/RegionSizeAnalyzer.java:165-168 | -1, 0 or 1 as the size is smaller, equal or larger; key and type play no part |
| RegionSizeAnalyzer.Average | custom-functions/src/com/broadcom/functions/RegionSizeAnalyzer.java:93 | the average is the total divided by the count, rounded down |
| RegionSizeAnalyzer.Interval | custom-functions/src/com/broadcom/functions/RegionSizeAnalyzer.java:48 | the stride is at least 1; with at least as many entries as the budget it is the entries per sample rounded down; below twice the budget it is 1 |
| RegionSizeAnalyzer.IntervalOfAMillion | custom-functions/src/com/broadcom/functions/RegionSizeAnalyzer.java:48 | a million entries give a stride of 10 |
| RegionSizeAnalyzer.KeepIfLarger | custom-functions/src/com/broadcom/functions/RegionSizeAnalyzer.java:62-67 | below 10 entries the sample is inserted; on a full heap a sample no larger than every held entry is dropped and the heap is unchanged, while a strictly larger one replaces a minimal entry, which is dropped; either way the heap holds min(10, samples) of them, dominating every sample it let go, and heap plus dropped is every sample |
| RegionSizeAnalyzer.HeapInsert | custom-functions/src/com/broadcom/functions/RegionSizeAnalyzer.java:62-63 | below capacity the sample joins the heap and the invariant is kept |
| RegionSizeAnalyzer.HeapReplace | custom-functions/src/com/broadcom/functions/RegionSizeAnalyzer.java:64-67 | a strictly larger sample replaces the head and the invariant is kept |
| RegionSizeAnalyzer.HeapDiscard | custom-functions/src/com/broadcom/functions/RegionSizeAnalyzer.java:64 | a sample no larger than the head is let go and the invariant is kept |
| RegionSizeAnalyzer.TallyStep | custom-functions/src/com/broadcom/functions/RegionSizeAnalyzer.java:56-58 | after a successful sizing the count and total are those of the samples of the examined entries |
| RegionSizeAnalyzer.Counts | custom-functions/src/com/broadcom/functions/RegionSizeAnalyzer.java:72 | the sample count is the number of examined entries and the heap size is min(10, sample count) |
| RegionSizeAnalyzer.Record | custom-functions/src/com/broadcom/functions/RegionSizeAnalyzer.java:56-67 | a successfully sized value extends the examined entries by one, with the count, the total and the heap again agreeing with their samples |
| RegionSizeAnalyzer.Examine | custom-functions/src/com/broadcom/functions/RegionSizeAnalyzer.java:53-68 | a null value is skipped; a sizing exception yields its message; otherwise the entry is examined, tallied and offered, keeping the loop invariant |
| RegionSizeAnalyzer.FailureStops | custom-functions/src/com/broadcom/functions/RegionSizeAnalyzer.java:56 | an exception met under budget is the first failure among the first 100000 non-null values |
| RegionSizeAnalyzer.StillUnderBudget | custom-functions/src/com/broadcom/functions/RegionSizeAnalyzer.java:72 | a loop that does not stop has taken fewer samples than the budget |
| RegionSizeAnalyzer.Visit | custom-functions/src/com/broadcom/functions/RegionSizeAnalyzer.java:52-70 | one round examines the entry the loop reaches, whose selection test holds because the budget is not yet spent; under budget the examined entries are exactly the non-null ones walked; a failure is the first among the first 100000 non-null values |
| RegionSizeAnalyzer.SampleRegion | custom-functions/src/com/broadcom/functions/RegionSizeAnalyzer.java:47-73 | on success the count and total describe the samples and the heap keeps the invariant over them; with budget >= heap size it succeeds exactly when none of the first 100000 non-null values fails to size, reports the first failure's message otherwise, and examines exactly those values |
| RegionSizeAnalyzer.Summarize | custom-functions/src/com/broadcom/functions/RegionSizeAnalyzer.java:75-112 | the largest entries come largest first and are a largest subset of the samples; with samples, the average, the largest size (a maximum of all samples) and its recommendation are set with SUCCESS; with none, only the empty list and a count of 0 |
| RegionSizeAnalyzer.LargestIsMax | custom-functions/src/com/broadcom/functions/RegionSizeAnalyzer.java:97 | the first entry of the sorted heap is at least as large as every sample |
| RegionSizeAnalyzer.Analyze | custom-functions/src/com/broadcom/functions/RegionSizeAnalyzer.java:34-118 | an empty region gives EMPTY_REGION; a sizing exception among the first 100000 non-null values gives ERROR with its message and nothing else; otherwise a success report over exactly the samples of those values |
| RegionSizeAnalyzer.Execute | custom-functions/src/com/broadcom/functions/RegionSizeAnalyzer.java:17-123 | the single result map goes back through `lastResult` and carries the region name and entry count; it is EMPTY_REGION for no entries, ERROR with the first sizing failure's message among the first 100000 non-null values, and otherwise the success report over exactly their samples |
| MaxSizeSummarizer.FlattenHasRoots | custom-functions/src/com/broadcom/functions/MaxSizeSummarizer.java:143-144 | every root region is collected |
| MaxSizeSummarizer.FlattenClosed | custom-functions/src/com/broadcom/functions/MaxSizeSummarizer.java:145-148 | every subregion of a collected region is collected |
| MaxSizeSummarizer.FlattenLeast | custom-functions/src/com/broadcom/functions/MaxSizeSummarizer.java:142-150 | nothing else is collected: any set holding the roots and closed under subregions holds all collected regions |
| MaxSizeSummarizer.FlattenAppend | custom-functions/src/com/broadcom/functions/MaxSizeSummarizer.java:143 | collecting from a list of regions is collecting from each in turn |
| MaxSizeSummarizer.GetAllRegions | custom-functions/src/com/broadcom/functions/MaxSizeSummarizer.java:142-150 | the accumulator ends as what it held plus the roots and all their descendants |
| MaxSizeSummarizer.LargestMeans | custom-functions/src/com/broadcom/functions/MaxSizeSummarizer.java:64-69 | the fold succeeds exactly when no sizing throws; it is then at least every size and equal to one of them, or 0 when there are none; on failure it carries the message of the first value that throws |
| MaxSizeSummarizer.Limit | custom-functions/src/com/broadcom/functions/MaxSizeSummarizer.java:58 | `LIMIT 100` keeps a prefix of at most 100 results, all of them when there are no more |
| MaxSizeSummarizer.ScanResults | custom-functions/src/com/broadcom/functions/MaxSizeSummarizer.java:64-69 | the query path's maximum is the fold over the results |
| MaxSizeSummarizer.ScanEntries | custom-functions/src/com/broadcom/functions/MaxSizeSummarizer.java:73-83 | the iteration path's maximum is the fold over the first 100 non-null values of the region |
| MaxSizeSummarizer.MetSized | custom-functions/src/com/broadcom/functions/MaxSizeSummarizer.java:79-81 | one more sized value moves the running maximum as `Math.max` does |
| MaxSizeSummarizer.MetThrows | custom-functions/src/com/broadcom/functions/MaxSizeSummarizer.java:79 | an exception among the first 100 non-null values decides the region's outcome |
| MaxSizeSummarizer.LargestPrefix | custom-functions/src/com/broadcom/functions/MaxSizeSummarizer.java:99-102 | once a sizing has thrown, the values after it do not matter |
| MaxSizeSummarizer.AnalyzeRegion | custom-functions/src/com/broadcom/functions/MaxSizeSummarizer.java:53-86 | above 10000 entries the query's failure or the fold over its first 100 results, otherwise the fold over the first 100 non-null values |
| MaxSizeSummarizer.RegionStep | custom-functions/src/com/broadcom/functions/MaxSizeSummarizer.java:41-102 | an empty region adds no line; a positive maximum adds its line, a zero one none; an exception adds the error line; only a successful maximum counts towards the overall maximum |
| MaxSizeSummarizer.OverallMaxStep | custom-functions/src/com/broadcom/functions/MaxSizeSummarizer.java:88-89 | folding one more region into the running maximum keeps it the maximum of the regions visited |
| MaxSizeSummarizer.OverallMaxUnique | custom-functions/src/com/broadcom/functions/MaxSizeSummarizer.java:40 | the overall maximum is the same whatever order the region set is iterated in |
| MaxSizeSummarizer.EnumeratesStep | custom-functions/src/com/broadcom/functions/MaxSizeSummarizer.java:40 | visiting a new region keeps every visited region listed exactly once |
| MaxSizeSummarizer.Deliveries | custom-functions/src/com/broadcom/functions/MaxSizeSummarizer.java:127-131 | every line is delivered once in order, and only the last closes the stream |
| MaxSizeSummarizer.SendAll | custom-functions/src/com/broadcom/functions/MaxSizeSummarizer.java:127-131 | the sender receives exactly those deliveries |
| MaxSizeSummarizer.Analyze | custom-functions/src/com/broadcom/functions/MaxSizeSummarizer.java:27-122 | every region of the hierarchy is visited exactly once; the overall maximum is the largest region maximum (0 if none); the report is the header, a blank line, each visited region's lines, a blank line, the largest object and its recommendation |
| MaxSizeSummarizer.Execute | custom-functions/src/com/broadcom/functions/MaxSizeSummarizer.java:20-140 | the analysis above, delivered line by line with the last line through `lastResult` |

## Left out

- Logging, timing (the execution time in the TopN summary) and the text formatting of lines, sizes and MB figures are not modelled. A line is a datatype value, and MB figures appear only in the contract of `Recommender.Recommend`.
- The object sizers, the query service and the cache are external code. The model receives what they report as function parameters. The object graph is not inspected.
- `Integer.parseInt` of the TopN argument is not modelled: the argument arrives parsed, and a `NumberFormatException` is not modelled.
- TopNByteSizesPerServerFunction.Execute: exceptions from the reflection sizer are not modelled; its sizer always returns a size.
- The outer `catch` of MaxSizeSummarizer (lines 135-139) is not modelled. In the model nothing outside the per-region `try` can throw: region discovery, the query service lookup and line building are total.
- Java `long` and `int` overflow is not modelled (totals, counts and sizes are unbounded naturals). It would need more than 2^63 bytes of samples.
- The heap's array layout and sift order are not modelled. The priority queue is specified by its multiset of entries, and its iteration order is left open, as the Java API leaves it.
- TopK.SortDescending: states descending order and permutation, not the stability of the Java list sort. Equal sizes may come out in another order.
- RegionSizeAnalyzer.SampleRegion: the exact description of the examined values holds when the budget is at least the heap size. That is the deployed configuration (100000 and 10). For smaller budgets only the tally and heap invariant are stated.
- Concurrent updates to a region while it is walked are not modelled. A region is a value.
- `getId`, `hasResult`, `optimizeForWrite`, `isHA`, the region lookup helper and the accept-everything object filter are not modelled. They carry no logic beyond constants.
- The cross-member aggregation of results on the client is not part of this model.
