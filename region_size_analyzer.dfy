/** RegionSizeAnalyzer: runs on the data set of one region. It walks the key
    set and examines each entry while the sample budget is not spent (the
    loop also tests a stride, `index % interval == 0`, but it stops as soon
    as the budget is reached, so the stride never selects an entry); it sizes
    each non-null value with the deep
    object-graph sizer, keeps the ten largest samples in a bounded min-heap
    (a full heap admits only a strictly larger sample), and reports them
    largest first with the sample count, the integer average and the G1
    region-size recommendation for the largest one. */
module RegionSizeAnalyzer {
  import opened Gemfire
  import opened TopK
  import opened Recommender

  const TopN: nat := 10
  const TargetSamples: nat := 100000

  /** A sampled entry: its key, the simple name of its value's class and the
      value's size; compareTo looks at the size alone. */
  datatype EntrySize = EntrySize(key: Key, typeName: string, size: nat) {
    function CompareTo(other: EntrySize): (c: int)
      ensures c in {-1, 0, 1}
      ensures c < 0 <==> size < other.size
      ensures c == 0 <==> size == other.size
      ensures c > 0 <==> other.size < size
    {
      if size < other.size then -1 else if size == other.size then 0 else 1
    }
  }

  function SizeOf(e: EntrySize): nat
  {
    e.size
  }

  datatype Status = EmptyRegion | Success | Error

  /** The result map. A field is `None` when the source never puts its key;
      `largestSizeBytes` is the size behind `largestSizeMB`, and the MB
      figures themselves are not modelled. */
  datatype Report = Report(
    regionName: string,
    totalEntries: nat,
    largestEntries: Option<seq<EntrySize>>,
    sampleCount: Option<nat>,
    avgSizeBytes: Option<nat>,
    largestSizeBytes: Option<nat>,
    recommendation: Option<Recommendation>,
    status: Option<Status>,
    error: Option<string>)

  /** `totalSize / sampleCount` on non-negative longs: integer division,
      rounding down. */
  function Average(totalSize: nat, sampleCount: nat): (avg: nat)
    requires sampleCount > 0
    ensures avg * sampleCount <= totalSize < (avg + 1) * sampleCount
  {
    Quotient(totalSize, sampleCount)
  }

  /** Division of non-negative longs, which rounds down. */
  function Quotient(n: nat, d: nat): (q: nat)
    requires d > 0
    ensures q * d <= n < (q + 1) * d
  {
    n / d
  }

  /** The sampling stride `max(1, totalEntries / targetSamples)`. */
  function Interval(totalEntries: nat, targetSamples: nat): (interval: nat)
    requires targetSamples > 0
    ensures interval >= 1
    ensures targetSamples <= totalEntries ==>
      interval * targetSamples <= totalEntries < (interval + 1) * targetSamples
    ensures totalEntries < 2 * targetSamples ==> interval == 1
  {
    var q := Quotient(totalEntries, targetSamples);
    if q > 1 then q else 1
  }

  lemma IntervalOfAMillion()
    ensures Interval(1000000, TargetSamples) == 10
  {
  }

  /** The sample an entry yields: none for a null value or a value whose
      sizing throws. */
  function SampleOf(e: Entry, sizer: Value -> Measure): seq<EntrySize>
  {
    match e.value
    case None => []
    case Some(v) =>
      match sizer(v)
      case Bytes(n) => [EntrySize(e.key, v.className, n)]
      case Thrown(_) => []
  }

  /** The samples of the entries, in order. */
  function Samples(es: seq<Entry>, sizer: Value -> Measure): (r: seq<EntrySize>)
    ensures |r| <= |es|
  {
    if es == [] then [] else Samples(es[..|es| - 1], sizer) + SampleOf(es[|es| - 1], sizer)
  }

  /** The message of the first value in `es` whose sizing throws. */
  function FirstFailure(es: seq<Entry>, sizer: Value -> Measure): Option<string>
  {
    if es == [] then None
    else if es[0].value.Some? && sizer(es[0].value.value).Thrown? then Some(sizer(es[0].value.value).message)
    else FirstFailure(es[1..], sizer)
  }

  lemma {:induction false} FirstFailureAppend(xs: seq<Entry>, ys: seq<Entry>, sizer: Value -> Measure)
    ensures FirstFailure(xs + ys, sizer) ==
      if FirstFailure(xs, sizer).Some? then FirstFailure(xs, sizer) else FirstFailure(ys, sizer)
  {
    if xs == [] {
      assert xs + ys == ys;
    } else {
      assert (xs + ys)[1..] == xs[1..] + ys;
      FirstFailureAppend(xs[1..], ys, sizer);
    }
  }

  /** What the sampling loop hands on. */
  datatype Sampling = Sampling(largest: seq<EntrySize>, sampleCount: nat, totalSize: nat)

  /** The heap invariant after `sampled` have been offered: it holds the
      min(topN, |sampled|) samples that dominate the ones it let go. */
  ghost predicate HeapKeeps(kept: multiset<EntrySize>, dropped: multiset<EntrySize>, sampled: seq<EntrySize>, topN: nat)
  {
    && kept + dropped == multiset(sampled)
    && |kept| == Min(topN, |sampled|)
    && (|kept| < topN ==> dropped == multiset{})
    && Dominates(dropped, kept, SizeOf)
  }

  /** One sample into the bounded heap: insert while it is not full, then
      replace the head only with a strictly larger sample. */
  method KeepIfLarger(largestEntries: MinQueue<EntrySize>, entry: EntrySize, topN: nat,
                      ghost sampled: seq<EntrySize>, ghost dropped: multiset<EntrySize>)
    returns (ghost dropped': multiset<EntrySize>)
    requires largestEntries.rank == SizeOf && 0 < topN
    requires HeapKeeps(largestEntries.Contents(), dropped, sampled, topN)
    modifies largestEntries
    ensures HeapKeeps(largestEntries.Contents(), dropped', sampled + [entry], topN)
    ensures old(largestEntries.Size()) < topN ==>
      largestEntries.Contents() == old(largestEntries.Contents()) + multiset{entry} && dropped' == dropped
    ensures old(largestEntries.Size()) >= topN && (forall y :: y in old(largestEntries.Contents()) ==> entry.size <= y.size) ==>
      largestEntries.Contents() == old(largestEntries.Contents()) && dropped' == dropped + multiset{entry}
    ensures old(largestEntries.Size()) >= topN && (exists y :: y in old(largestEntries.Contents()) && y.size < entry.size) ==>
      exists m :: IsMin(m, old(largestEntries.Contents()), SizeOf)
        && largestEntries.Contents() == (old(largestEntries.Contents()) - multiset{m}) + multiset{entry}
        && dropped' == dropped + multiset{m}
  {
    ghost var kept := largestEntries.Contents();
    if largestEntries.Size() < topN {
      largestEntries.Offer(entry);
      HeapInsert(kept, dropped, sampled, entry, topN);
      dropped' := dropped;
    } else {
      var head := largestEntries.Peek();
      if entry.size > head.size {
        var polled := largestEntries.Poll();
        largestEntries.Offer(entry);
        HeapReplace(kept, dropped, sampled, entry, polled, topN);
        dropped' := dropped + multiset{polled};
      } else {
        HeapDiscard(kept, dropped, sampled, entry, head, topN);
        dropped' := dropped + multiset{entry};
      }
    }
  }

  lemma HeapInsert(kept: multiset<EntrySize>, dropped: multiset<EntrySize>, sampled: seq<EntrySize>, x: EntrySize, topN: nat)
    requires HeapKeeps(kept, dropped, sampled, topN) && |kept| < topN
    ensures HeapKeeps(kept + multiset{x}, dropped, sampled + [x], topN)
  {
    assert multiset(sampled + [x]) == multiset(sampled) + multiset{x};
  }

  lemma HeapReplace(kept: multiset<EntrySize>, dropped: multiset<EntrySize>, sampled: seq<EntrySize>,
                    x: EntrySize, m: EntrySize, topN: nat)
    requires HeapKeeps(kept, dropped, sampled, topN) && 0 < topN <= |kept|
    requires IsMin(m, kept, SizeOf) && m.size < x.size
    ensures HeapKeeps((kept - multiset{m}) + multiset{x}, dropped + multiset{m}, sampled + [x], topN)
  {
    assert multiset(sampled + [x]) == multiset(sampled) + multiset{x};
    ReplaceCounts(kept, dropped, m, x);
    ReplaceMinKeepsDominance(dropped, kept, x, m, SizeOf);
  }

  lemma HeapDiscard(kept: multiset<EntrySize>, dropped: multiset<EntrySize>, sampled: seq<EntrySize>,
                    x: EntrySize, m: EntrySize, topN: nat)
    requires HeapKeeps(kept, dropped, sampled, topN) && 0 < topN <= |kept|
    requires IsMin(m, kept, SizeOf) && x.size <= m.size
    ensures HeapKeeps(kept, dropped + multiset{x}, sampled + [x], topN)
  {
    assert multiset(sampled + [x]) == multiset(sampled) + multiset{x};
    DiscardKeepsDominance(dropped, kept, x, m, SizeOf);
  }

  /** The state of the sampling loop: the tallies and the heap agree with
      the samples of the entries examined so far. */
  ghost predicate Progress(examined: seq<Entry>, sampled: seq<EntrySize>, sampleCount: nat, totalSize: nat,
                           kept: multiset<EntrySize>, dropped: multiset<EntrySize>, topN: nat, sizer: Value -> Measure)
  {
    Tallied(examined, sampled, sampleCount, totalSize, sizer) && HeapKeeps(kept, dropped, sampled, topN)
  }

  /** The counts the loop's tests look at. */
  lemma Counts(examined: seq<Entry>, sampled: seq<EntrySize>, sampleCount: nat, totalSize: nat,
               kept: multiset<EntrySize>, dropped: multiset<EntrySize>, topN: nat, sizer: Value -> Measure)
    requires Progress(examined, sampled, sampleCount, totalSize, kept, dropped, topN, sizer)
    ensures sampleCount == |examined| && |kept| == Min(topN, sampleCount)
  {
  }

  /** One step of the sampling loop on a selected entry: a null value is
      skipped, a value whose sizing throws stops the walk with its message,
      and any other value is counted, added to the total and offered to the
      heap. */
  method Examine(largestEntries: MinQueue<EntrySize>, entry: Entry, sizer: Value -> Measure, topN: nat,
                 sampleCount: nat, totalSize: nat,
                 ghost examined: seq<Entry>, ghost sampled: seq<EntrySize>, ghost dropped: multiset<EntrySize>)
    returns (failure: Option<string>, count: nat, total: nat,
             ghost examined': seq<Entry>, ghost sampled': seq<EntrySize>, ghost dropped': multiset<EntrySize>)
    requires largestEntries.rank == SizeOf && 0 < topN
    requires Progress(examined, sampled, sampleCount, totalSize, largestEntries.Contents(), dropped, topN, sizer)
    modifies largestEntries
    ensures failure.Some? ==> entry.value.Some? && sizer(entry.value.value) == Thrown(failure.value)
    ensures failure.None? ==>
      && examined' == examined + (if entry.value.Some? then [entry] else [])
      && Progress(examined', sampled', count, total, largestEntries.Contents(), dropped', topN, sizer)
  {
    failure, count, total := None, sampleCount, totalSize;
    examined', sampled', dropped' := examined, sampled, dropped;
    match entry.value {
      case None =>
        assert examined' == examined + [];
      case Some(value) =>
        match sizer(value) {
          case Thrown(message) =>
            failure := Some(message);
          case Bytes(size) =>
            count, total, sampled', dropped' :=
              Record(largestEntries, entry, size, sizer, topN, sampleCount, totalSize, examined, sampled, dropped);
            examined' := examined + [entry];
        }
    }
  }

  /** A value sized at `size` bytes: counted, added to the total and
      offered to the heap as a sample. */
  method Record(largestEntries: MinQueue<EntrySize>, entry: Entry, size: nat, sizer: Value -> Measure, topN: nat,
                sampleCount: nat, totalSize: nat,
                ghost examined: seq<Entry>, ghost sampled: seq<EntrySize>, ghost dropped: multiset<EntrySize>)
    returns (count: nat, total: nat, ghost sampled': seq<EntrySize>, ghost dropped': multiset<EntrySize>)
    requires largestEntries.rank == SizeOf && 0 < topN
    requires entry.value.Some? && sizer(entry.value.value) == Bytes(size)
    requires Progress(examined, sampled, sampleCount, totalSize, largestEntries.Contents(), dropped, topN, sizer)
    modifies largestEntries
    ensures Progress(examined + [entry], sampled', count, total, largestEntries.Contents(), dropped', topN, sizer)
  {
    var sample := EntrySize(entry.key, entry.value.value.className, size);
    dropped' := KeepIfLarger(largestEntries, sample, topN, sampled, dropped);
    ProgressStep(examined, sampled, sampleCount, totalSize, largestEntries.Contents(), dropped',
                 entry, sample, topN, sizer);
    count, total, sampled' := sampleCount + 1, totalSize + size, sampled + [sample];
  }

  /** A sized value extends the tallies, and with the heap updated the
      loop state holds again one entry further. */
  lemma ProgressStep(examined: seq<Entry>, sampled: seq<EntrySize>, sampleCount: nat, totalSize: nat,
                     kept: multiset<EntrySize>, dropped: multiset<EntrySize>,
                     entry: Entry, sample: EntrySize, topN: nat, sizer: Value -> Measure)
    requires Tallied(examined, sampled, sampleCount, totalSize, sizer)
    requires HeapKeeps(kept, dropped, sampled + [sample], topN)
    requires entry.value.Some? && sizer(entry.value.value) == Bytes(sample.size)
    requires sample == EntrySize(entry.key, entry.value.value.className, sample.size)
    ensures Progress(examined + [entry], sampled + [sample], sampleCount + 1, totalSize + sample.size,
                     kept, dropped, topN, sizer)
  {
    TallyStep(examined, sampled, sampleCount, totalSize, entry, sample, sizer);
  }

  /** One round of the sampling loop at `index`: the entry is examined
      when the stride test or the budget test holds, and a sizing failure
      ends the walk. The loop only calls it under budget, so every entry is
      examined. */
  method Visit(entries: seq<Entry>, index: nat, interval: nat, largestEntries: MinQueue<EntrySize>,
               sizer: Value -> Measure, topN: nat, targetSamples: nat, sampleCount: nat, totalSize: nat,
               ghost examined: seq<Entry>, ghost sampled: seq<EntrySize>, ghost dropped: multiset<EntrySize>)
    returns (failure: Option<string>, count: nat, total: nat,
             ghost examined': seq<Entry>, ghost sampled': seq<EntrySize>, ghost dropped': multiset<EntrySize>)
    requires index < |entries| && 0 < interval && 0 < topN && largestEntries.rank == SizeOf
    requires Progress(examined, sampled, sampleCount, totalSize, largestEntries.Contents(), dropped, topN, sizer)
    requires targetSamples >= topN ==> UnderBudget(entries, index, examined, targetSamples)
    modifies largestEntries
    ensures failure.Some? && targetSamples >= topN ==>
      FirstFailure(FirstPresent(entries, targetSamples), sizer) == failure
    ensures failure.None? ==>
      && Progress(examined', sampled', count, total, largestEntries.Contents(), dropped', topN, sizer)
      && (targetSamples >= topN ==> examined' == Present(entries[..index + 1]) && |examined'| <= targetSamples)
  {
    failure, count, total := None, sampleCount, totalSize;
    examined', sampled', dropped' := examined, sampled, dropped;
    Counts(examined, sampled, sampleCount, totalSize, largestEntries.Contents(), dropped, topN, sizer);
    if index % interval == 0 || sampleCount < targetSamples {
      failure, count, total, examined', sampled', dropped' :=
        Examine(largestEntries, entries[index], sizer, topN, sampleCount, totalSize, examined, sampled, dropped);
      if failure.Some? {
        FailureStops(entries, index, examined, sizer, topN, targetSamples);
        return;
      }
    }
    if targetSamples >= topN {
      UnderBudgetStep(entries, index, examined, examined', targetSamples);
    }
  }

  /** The sampling loop. `examined` are the non-null entries that were
      sized, in order; `dropped` the samples the heap let go. When the budget
      is at least the heap size, the loop examines exactly the first
      `targetSamples` non-null entries: the stride never comes into play. */
  method SampleRegion(entries: seq<Entry>, sizer: Value -> Measure, topN: nat, targetSamples: nat)
    returns (outcome: Result<Sampling, string>,
             ghost examined: seq<Entry>, ghost sampled: seq<EntrySize>, ghost dropped: multiset<EntrySize>)
    requires 0 < topN && 0 < targetSamples
    ensures outcome.Ok? ==>
      Progress(examined, sampled, outcome.value.sampleCount, outcome.value.totalSize,
               multiset(outcome.value.largest), dropped, topN, sizer)
    ensures targetSamples >= topN ==>
      var firstK := FirstPresent(entries, targetSamples);
      && (outcome.Ok? <==> FirstFailure(firstK, sizer).None?)
      && (outcome.Err? ==> Some(outcome.error) == FirstFailure(firstK, sizer))
      && (outcome.Ok? ==> examined == firstK && outcome.value.sampleCount <= targetSamples)
  {
    var largestEntries := new MinQueue(SizeOf);
    var totalSize: nat := 0;
    var sampleCount: nat := 0;
    var interval := Interval(|entries|, targetSamples);
    var index := 0;
    var failure: Option<string> := None;
    ghost var reached := false;
    examined, sampled, dropped := [], [], multiset{};
    while index < |entries|
      invariant 0 <= index <= |entries|
      invariant fresh(largestEntries) && largestEntries.rank == SizeOf
      invariant Progress(examined, sampled, sampleCount, totalSize, largestEntries.Contents(), dropped, topN, sizer)
      invariant targetSamples >= topN ==> UnderBudget(entries, index, examined, targetSamples)
      invariant failure.None? && !reached
    {
      failure, sampleCount, totalSize, examined, sampled, dropped :=
        Visit(entries, index, interval, largestEntries, sizer, topN, targetSamples,
              sampleCount, totalSize, examined, sampled, dropped);
      if failure.Some? {
        break;
      }
      index := index + 1;
      Counts(examined, sampled, sampleCount, totalSize, largestEntries.Contents(), dropped, topN, sizer);
      if sampleCount >= targetSamples && largestEntries.Size() >= topN {
        if targetSamples >= topN {
          FirstPresentReached(entries, index, examined, targetSamples);
        }
        reached := true;
        break;
      }
      if targetSamples >= topN {
        StillUnderBudget(entries, index, examined, targetSamples, largestEntries.Size(), topN);
      }
    }
    if failure.Some? {
      outcome := Err(failure.value);
    } else {
      if targetSamples >= topN && !reached {
        WalkedAll(entries, examined, targetSamples);
      }
      outcome := Ok(Sampling(largestEntries.elems, sampleCount, totalSize));
    }
  }

  /** Under budget, every entry walked so far has been examined. */
  ghost predicate UnderBudget(entries: seq<Entry>, index: nat, examined: seq<Entry>, targetSamples: nat)
  {
    index <= |entries| && examined == Present(entries[..index]) && |examined| < targetSamples
  }

  /** Not stopping means the budget is not reached yet: once as many
      samples as the budget were taken, the heap would be full. */
  lemma StillUnderBudget(entries: seq<Entry>, index: nat, examined: seq<Entry>, targetSamples: nat,
                         heapSize: nat, topN: nat)
    requires index <= |entries| && examined == Present(entries[..index]) && |examined| <= targetSamples
    requires topN <= targetSamples && heapSize == Min(topN, |examined|)
    requires !(|examined| >= targetSamples && heapSize >= topN)
    ensures UnderBudget(entries, index, examined, targetSamples)
  {
  }

  /** A walk that ends under budget has examined every non-null entry. */
  lemma WalkedAll(entries: seq<Entry>, examined: seq<Entry>, targetSamples: nat)
    requires UnderBudget(entries, |entries|, examined, targetSamples)
    ensures FirstPresent(entries, targetSamples) == examined
  {
    assert entries[..|entries|] == entries;
  }

  /** Walking one more entry under budget keeps the examined entries equal
      to the non-null entries walked, now at most `targetSamples` of them. */
  lemma UnderBudgetStep(entries: seq<Entry>, index: nat, before: seq<Entry>, after: seq<Entry>, targetSamples: nat)
    requires index < |entries| && UnderBudget(entries, index, before, targetSamples)
    requires after == before + (if entries[index].value.Some? then [entries[index]] else [])
    ensures after == Present(entries[..index + 1]) && |after| <= targetSamples
  {
    PresentStep(entries, index);
  }

  /** Sizing one more value successfully extends the samples by its sample. */
  lemma SampleStep(examined: seq<Entry>, entry: Entry, sample: EntrySize, sizer: Value -> Measure)
    requires entry.value.Some? && sizer(entry.value.value) == Bytes(sample.size)
    requires sample == EntrySize(entry.key, entry.value.value.className, sample.size)
    requires FirstFailure(examined, sizer).None?
    ensures Samples(examined + [entry], sizer) == Samples(examined, sizer) + [sample]
    ensures FirstFailure(examined + [entry], sizer).None?
  {
    assert (examined + [entry])[..|examined|] == examined;
    FirstFailureAppend(examined, [entry], sizer);
    assert [entry][1..] == [];
  }

  /** The running count and total describe the samples of the examined
      entries, all of which were sized. */
  ghost predicate Tallied(examined: seq<Entry>, sampled: seq<EntrySize>, sampleCount: nat, totalSize: nat, sizer: Value -> Measure)
  {
    && sampled == Samples(examined, sizer)
    && FirstFailure(examined, sizer).None?
    && sampleCount == |sampled| == |examined|
    && totalSize == SumRank(sampled, SizeOf)
  }

  lemma TallyStep(examined: seq<Entry>, sampled: seq<EntrySize>, sampleCount: nat, totalSize: nat,
                  entry: Entry, sample: EntrySize, sizer: Value -> Measure)
    requires Tallied(examined, sampled, sampleCount, totalSize, sizer)
    requires entry.value.Some? && sizer(entry.value.value) == Bytes(sample.size)
    requires sample == EntrySize(entry.key, entry.value.value.className, sample.size)
    ensures Tallied(examined + [entry], sampled + [sample], sampleCount + 1, totalSize + sample.size, sizer)
  {
    SampleStep(examined, entry, sample, sizer);
    SumRankAppend(sampled, sample, SizeOf);
  }

  /** A sizing failure met while still under budget is the first failure
      among the first `targetSamples` non-null entries. */
  lemma FailureStops(entries: seq<Entry>, index: nat, examined: seq<Entry>, sizer: Value -> Measure, topN: nat, targetSamples: nat)
    requires index < |entries| && entries[index].value.Some?
    requires sizer(entries[index].value.value).Thrown?
    requires FirstFailure(examined, sizer).None?
    requires targetSamples >= topN ==> UnderBudget(entries, index, examined, targetSamples)
    ensures targetSamples >= topN ==>
      FirstFailure(FirstPresent(entries, targetSamples), sizer) == Some(sizer(entries[index].value.value).message)
  {
    if targetSamples >= topN {
      var entry := entries[index];
      var head := examined + [entry];
      PresentPrefix(entries, index + 1);
      PresentAppend(entries[..index], [entry]);
      assert entries[..index + 1] == entries[..index] + [entry];
      assert Present([entry]) == [entry];
      assert Present(entries[..index + 1]) == head;
      var all := Present(entries);
      assert all == head + Present(entries[index + 1..]);
      var n := Min(targetSamples, |all|);
      assert |head| <= n;
      var rest := all[|head|..n];
      assert all[..n] == head + rest;
      FirstFailureAppend(head, rest, sizer);
      FirstFailureAppend(examined, [entry], sizer);
    }
  }

  /** The analysis of one region, without the sending. */
  method Analyze(region: Region, sizer: Value -> Measure) returns (report: Report)
    ensures report.regionName == region.name && report.totalEntries == |region.entries|
    ensures |region.entries| == 0 ==>
      report == Report(region.name, 0, None, None, None, None, None, Some(EmptyRegion), None)
    ensures |region.entries| > 0 && FirstFailure(FirstPresent(region.entries, TargetSamples), sizer).Some? ==>
      report == Report(region.name, |region.entries|, None, None, None, None, None, Some(Error),
                       FirstFailure(FirstPresent(region.entries, TargetSamples), sizer))
    ensures |region.entries| > 0 && FirstFailure(FirstPresent(region.entries, TargetSamples), sizer).None? ==>
      SuccessReport(report, Samples(FirstPresent(region.entries, TargetSamples), sizer))
  {
    var totalEntries := |region.entries|;
    if totalEntries == 0 {
      return Report(region.name, 0, None, None, None, None, None, Some(EmptyRegion), None);
    }
    var outcome, examined, sampled, dropped := SampleRegion(region.entries, sizer, TopN, TargetSamples);
    match outcome {
      case Err(message) =>
        report := Report(region.name, totalEntries, None, None, None, None, None, Some(Error), Some(message));
      case Ok(s) =>
        report := Summarize(region.name, totalEntries, s, sampled, dropped);
    }
  }

  /** The part of the result built after a sampling pass that sized every
      value it examined. */
  method Summarize(regionName: string, totalEntries: nat, s: Sampling,
                   ghost sampled: seq<EntrySize>, ghost dropped: multiset<EntrySize>) returns (report: Report)
    requires s.sampleCount == |sampled| && s.totalSize == SumRank(sampled, SizeOf)
    requires HeapKeeps(multiset(s.largest), dropped, sampled, TopN)
    ensures report.regionName == regionName && report.totalEntries == totalEntries
    ensures SuccessReport(report, sampled)
  {
    var sortedLargest := SortedCopy(s.largest, SizeOf);
    if s.sampleCount > 0 {
      var largest := sortedLargest[0].size;
      LargestIsMax(sortedLargest, s.largest, dropped, sampled);
      report := Report(regionName, totalEntries, Some(sortedLargest), Some(s.sampleCount),
                       Some(Average(s.totalSize, s.sampleCount)), Some(largest), Some(Recommend(largest)),
                       Some(Success), None);
    } else {
      report := Report(regionName, totalEntries, Some(sortedLargest), Some(0),
                       None, None, None, None, None);
    }
    assert multiset(sampled) - multiset(s.largest) == dropped;
  }

  /** The report of a region whose samples were all sized. */
  ghost predicate SuccessReport(report: Report, samples: seq<EntrySize>)
  {
    && report.error.None?
    && report.sampleCount == Some(|samples|)
    && report.largestEntries.Some?
    && LargestOfSamples(report.largestEntries.value, samples)
    && (|samples| == 0 ==>
         report.avgSizeBytes.None? && report.largestSizeBytes.None? &&
         report.recommendation.None? && report.status.None?)
    && (|samples| > 0 ==>
         && report.avgSizeBytes == Some(Average(SumRank(samples, SizeOf), |samples|))
         && report.largestSizeBytes.Some?
         && IsLargestSize(report.largestSizeBytes.value, samples)
         && report.recommendation == Some(Recommend(report.largestSizeBytes.value))
         && report.status == Some(Success))
  }

  /** The reported list: a largest-TopN selection of the samples, sorted
      largest first. */
  ghost predicate LargestOfSamples(largest: seq<EntrySize>, samples: seq<EntrySize>)
  {
    && Descending(largest, SizeOf)
    && |largest| == Min(TopN, |samples|)
    && multiset(largest) <= multiset(samples)
    && Dominates(multiset(samples) - multiset(largest), multiset(largest), SizeOf)
  }

  /** m is the largest sampled size. */
  ghost predicate IsLargestSize(m: nat, samples: seq<EntrySize>)
  {
    (exists i :: 0 <= i < |samples| && samples[i].size == m) &&
    forall i :: 0 <= i < |samples| ==> samples[i].size <= m
  }

  /** The head of the sorted heap is the largest of all samples. */
  lemma LargestIsMax(sorted: seq<EntrySize>, kept: seq<EntrySize>, dropped: multiset<EntrySize>, sampled: seq<EntrySize>)
    requires |sorted| > 0 && Descending(sorted, SizeOf) && multiset(sorted) == multiset(kept)
    requires multiset(kept) + dropped == multiset(sampled)
    requires Dominates(dropped, multiset(kept), SizeOf)
    ensures IsLargestSize(sorted[0].size, sampled)
  {
    assert sorted[0] in multiset(kept);
    forall y | y in multiset(kept)
      ensures SizeOf(y) <= SizeOf(sorted[0])
    {
      var j :| 0 <= j < |sorted| && sorted[j] == y;
    }
    KeptMaxIsOverallMax(dropped, multiset(kept), sorted[0], SizeOf);
    assert sorted[0] in multiset(sampled);
    var i :| 0 <= i < |sampled| && sampled[i] == sorted[0];
    forall k | 0 <= k < |sampled|
      ensures sampled[k].size <= sorted[0].size
    {
      assert sampled[k] in multiset(sampled);
    }
  }

  /** The function as deployed: analyse, then send the report with
      lastResult. */
  method Execute(region: Region, sizer: Value -> Measure, sender: Sender<Report>) returns (report: Report)
    modifies sender
    ensures sender.sent == old(sender.sent) + [Last(report)]
    ensures report.regionName == region.name && report.totalEntries == |region.entries|
    ensures |region.entries| == 0 ==>
      report == Report(region.name, 0, None, None, None, None, None, Some(EmptyRegion), None)
    ensures |region.entries| > 0 && FirstFailure(FirstPresent(region.entries, TargetSamples), sizer).Some? ==>
      report == Report(region.name, |region.entries|, None, None, None, None, None, Some(Error),
                       FirstFailure(FirstPresent(region.entries, TargetSamples), sizer))
    ensures |region.entries| > 0 && FirstFailure(FirstPresent(region.entries, TargetSamples), sizer).None? ==>
      SuccessReport(report, Samples(FirstPresent(region.entries, TargetSamples), sizer))
  {
    report := Analyze(region, sizer);
    sender.LastResult(report);
  }
}
