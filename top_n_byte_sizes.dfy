/** TopNByteSizesPerServerFunction: sizes every entry of one region with the
    reflection sizer, keeps the N largest in a min-heap (offer, then poll the
    head whenever the heap holds more than N), sends the retained entries
    back, and summarises them largest first. */
module TopNByteSizesPerServerFunction {
  import opened Gemfire
  import opened TopK

  const DefaultTopN: int := 3

  /** An entry and its size; compareTo looks at the size alone. */
  datatype EntrySize = EntrySize(key: Key, size: nat) {
    function CompareTo(other: EntrySize): (c: int)
      ensures c in {-1, 0, 1}
      ensures c < 0 <==> size < other.size
      ensures c == 0 <==> size == other.size
      ensures c > 0 <==> other.size < size
    {
      if size < other.size then -1 else if size == other.size then 0 else 1
    }
  }

  /** The rank the heap orders entries by. */
  function SizeOf(e: EntrySize): nat
  {
    e.size
  }

  /** What the function sends: `0` for an empty heap, else one entry per
      message (its text form is not modelled). */
  datatype Reply = Zero | Line(entry: EntrySize)

  /** What logSummary reports: the requested N, the entries largest first,
      and their total size. */
  datatype Summary = Summary(topN: int, entries: seq<EntrySize>, totalSize: nat)

  /** N is 3 unless the caller passes an argument (already parsed here). */
  function TopNArgument(args: Option<seq<int>>): int
  {
    if args.Some? && |args.value| > 0 then args.value[0] else DefaultTopN
  }

  /** Every entry of the region with the reflection sizer's size of its
      value (null values are sized too). */
  function Measured(entries: seq<Entry>, sizeof: Option<Value> -> nat): seq<EntrySize>
  {
    seq(|entries|, i requires 0 <= i < |entries| => EntrySize(entries[i].key, sizeof(entries[i].value)))
  }

  /** How many entries a heap bounded by topN holds after n offers. */
  function Bound(topN: int, n: nat): nat
  {
    if topN <= 0 then 0 else if topN < n then topN else n
  }

  /** The messages for a non-empty heap: one per entry in iteration order,
      only the final one through lastResult. */
  function Replies(order: seq<EntrySize>): (r: seq<Message<Reply>>)
    ensures |r| == |order|
    ensures order != [] ==> Closed(r)
    ensures forall i :: 0 <= i < |r| ==> r[i].payload == Line(order[i])
  {
    seq(|order|, i requires 0 <= i < |order| =>
      if i < |order| - 1 then Send(Line(order[i])) else Last(Line(order[i])))
  }

  /** The heap invariant after the entries `offered` went through the loop:
      it holds Bound(topN, |offered|) of them, and every entry it polled is
      no larger than any entry it holds. */
  ghost predicate Retains(kept: multiset<EntrySize>, dropped: multiset<EntrySize>, offered: seq<EntrySize>, topN: int)
  {
    && kept + dropped == multiset(offered)
    && |kept| == Bound(topN, |offered|)
    && Dominates(dropped, kept, SizeOf)
  }

  /** One round of the loop: offer the entry, then poll the head if the heap
      now holds more than topN. */
  method OfferThenTrim(minHeap: MinQueue<EntrySize>, entry: EntrySize, topN: int,
                       ghost offered: seq<EntrySize>, ghost dropped: multiset<EntrySize>)
    returns (ghost dropped': multiset<EntrySize>)
    requires minHeap.rank == SizeOf
    requires Retains(minHeap.Contents(), dropped, offered, topN)
    modifies minHeap
    ensures Retains(minHeap.Contents(), dropped', offered + [entry], topN)
  {
    ghost var kept := minHeap.Contents();
    OfferCounts(kept, dropped, offered, entry, topN);
    minHeap.Offer(entry);
    if minHeap.Size() > topN {
      var polled := minHeap.Poll();
      OfferPollKeepsDominance(dropped, kept, entry, polled, SizeOf);
      dropped' := dropped + multiset{polled};
      TrimmedCounts(kept, dropped, offered, entry, polled, topN);
    } else {
      dropped' := dropped;
    }
  }

  /** Offering one entry: the multiset grows by it, and below the bound
      nothing has been polled yet. */
  lemma OfferCounts(kept: multiset<EntrySize>, dropped: multiset<EntrySize>, offered: seq<EntrySize>,
                    entry: EntrySize, topN: int)
    requires Retains(kept, dropped, offered, topN)
    ensures multiset(offered + [entry]) == kept + multiset{entry} + dropped
    ensures |kept + multiset{entry}| <= topN ==>
      dropped == multiset{} && Retains(kept + multiset{entry}, dropped, offered + [entry], topN)
    ensures |kept + multiset{entry}| > topN ==> |kept| == Bound(topN, |offered| + 1)
  {
    assert multiset(offered + [entry]) == multiset(offered) + multiset{entry};
    assert |kept + dropped| == |multiset(offered)| == |offered|;
    assert |kept| + |dropped| == |offered|;
  }

  lemma TrimmedCounts(kept: multiset<EntrySize>, dropped: multiset<EntrySize>, offered: seq<EntrySize>,
                      entry: EntrySize, polled: EntrySize, topN: int)
    requires multiset(offered + [entry]) == kept + multiset{entry} + dropped
    requires polled in kept + multiset{entry}
    requires |kept| == Bound(topN, |offered| + 1)
    requires Dominates(dropped + multiset{polled}, (kept + multiset{entry}) - multiset{polled}, SizeOf)
    ensures Retains((kept + multiset{entry}) - multiset{polled}, dropped + multiset{polled}, offered + [entry], topN)
  {
    assert (kept + multiset{entry}) - multiset{polled} + (dropped + multiset{polled}) == kept + multiset{entry} + dropped;
  }

  /** The offer-then-poll loop over the region's entries; the result is the
      heap's entries in its iteration order. */
  method SelectLargest(entries: seq<Entry>, sizeof: Option<Value> -> nat, topN: int)
    returns (iteration: seq<EntrySize>, ghost dropped: multiset<EntrySize>)
    ensures multiset(iteration) + dropped == multiset(Measured(entries, sizeof))
    ensures |iteration| == Bound(topN, |entries|)
    ensures Dominates(dropped, multiset(iteration), SizeOf)
  {
    var measured := Measured(entries, sizeof);
    var minHeap := new MinQueue(SizeOf);
    dropped := multiset{};
    var i := 0;
    while i < |entries|
      invariant 0 <= i <= |entries|
      invariant fresh(minHeap) && minHeap.rank == SizeOf
      invariant Retains(minHeap.Contents(), dropped, measured[..i], topN)
    {
      var entry := EntrySize(entries[i].key, sizeof(entries[i].value));
      dropped := OfferThenTrim(minHeap, entry, topN, measured[..i], dropped);
      assert measured[..i + 1] == measured[..i] + [entry];
      i := i + 1;
    }
    assert measured[..i] == measured;
    iteration := minHeap.elems;
  }

  /** The summary's running total over the sorted entries. */
  method TotalSize(entries: seq<EntrySize>) returns (total: nat)
    ensures total == SumRank(entries, SizeOf)
  {
    total := 0;
    var i := 0;
    while i < |entries|
      invariant 0 <= i <= |entries|
      invariant total == SumRank(entries[..i], SizeOf)
    {
      SumRankAppend(entries[..i], entries[i], SizeOf);
      assert entries[..i + 1] == entries[..i] + [entries[i]];
      total := total + entries[i].size;
      i := i + 1;
    }
    assert entries[..i] == entries;
  }

  /** The iterator loop: sendResult for every entry but the last, which goes
      through lastResult. */
  method SendEntries(iteration: seq<EntrySize>, sender: Sender<Reply>)
    modifies sender
    ensures sender.sent == old(sender.sent) + Replies(iteration)
  {
    var count := 0;
    while count < |iteration|
      invariant 0 <= count <= |iteration|
      invariant sender.sent == old(sender.sent) + Replies(iteration)[..count]
    {
      var size := iteration[count];
      assert Replies(iteration)[..count + 1] == Replies(iteration)[..count] + [Replies(iteration)[count]];
      if count + 1 < |iteration| {
        sender.SendResult(Line(size));
      } else {
        sender.LastResult(Line(size));
      }
      count := count + 1;
    }
    assert Replies(iteration)[..count] == Replies(iteration);
  }

  /** The whole function on one member: select, send, summarise. `order` is
      the heap's iteration order, which the source leaves unspecified. */
  method Execute(region: Region, sizeof: Option<Value> -> nat, args: Option<seq<int>>, sender: Sender<Reply>)
    returns (ghost kept: multiset<EntrySize>, ghost order: seq<EntrySize>, summary: Option<Summary>)
    modifies sender
    ensures var all := multiset(Measured(region.entries, sizeof));
      && kept <= all
      && |kept| == Bound(TopNArgument(args), |region.entries|)
      && Dominates(all - kept, kept, SizeOf)
    ensures multiset(order) == kept
    ensures kept == multiset{} ==> sender.sent == old(sender.sent) + [Last(Zero)] && summary.None?
    ensures kept != multiset{} ==>
      && sender.sent == old(sender.sent) + Replies(order)
      && summary.Some?
      && summary.value.topN == TopNArgument(args)
      && Descending(summary.value.entries, SizeOf)
      && multiset(summary.value.entries) == kept
      && summary.value.totalSize == SumRank(order, SizeOf)
  {
    var topN := TopNArgument(args);
    var iteration, dropped := SelectLargest(region.entries, sizeof, topN);
    kept := multiset(iteration);
    order := iteration;
    assert (kept + dropped) - kept == dropped;
    if |iteration| == 0 {
      sender.LastResult(Zero);
      summary := None;
    } else {
      var sortedEntries := SortedCopy(iteration, SizeOf);
      SendEntries(iteration, sender);
      var total := TotalSize(sortedEntries);
      SumRankPermutation(sortedEntries, iteration, SizeOf);
      summary := Some(Summary(topN, sortedEntries, total));
    }
  }
}
