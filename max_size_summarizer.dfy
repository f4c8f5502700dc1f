/** MaxSizeSummarizer: on one member, walk every region of the cache, find
    the largest object among at most 100 values of each non-empty region,
    and turn the largest object of all into a G1 region-size recommendation.
    The answer is a list of report lines sent back one by one. */
module MaxSizeSummarizer {
  import opened Gemfire
  import opened Recommender

  /** Regions with more entries than this are read through a query. */
  const LargeRegion: nat := 10000

  /** At most this many values are sized per region (`LIMIT 100` on the
      query path, the `checked` counter on the iteration path). */
  const SampleLimit: nat := 100

  /** One line of the report. `RegionMax` is the per-region line with the
      short name, the entry count and the largest size; `LargestObject` and
      `Advice` close the report. */
  datatype Line =
    | Header(member: string)
    | Blank
    | RegionMax(name: string, entryCount: nat, maxBytes: nat)
    | RegionError(name: string, message: string)
    | LargestObject(bytes: nat)
    | Advice(recommendation: Recommendation)

  // ---------------------------------------------------------------------
  // The region hierarchy

  /** The roots and, recursively, all their subregions. */
  function Flatten(rs: seq<Region>): set<Region>
    decreases rs
  {
    if rs == [] then {}
    else {rs[0]} + Flatten(rs[0].subregions) + Flatten(rs[1..])
  }

  /** Every subregion of a region in the set is in the set. */
  ghost predicate ClosedUnderSubregions(s: set<Region>)
  {
    forall r, c :: r in s && c in r.subregions ==> c in s
  }

  lemma {:induction false} FlattenAppend(xs: seq<Region>, ys: seq<Region>)
    ensures Flatten(xs + ys) == Flatten(xs) + Flatten(ys)
    decreases xs
  {
    if xs == [] {
      assert xs + ys == ys;
    } else {
      assert (xs + ys)[1..] == xs[1..] + ys;
      FlattenAppend(xs[1..], ys);
    }
  }

  lemma {:induction false} FlattenHasRoots(rs: seq<Region>, r: Region)
    requires r in rs
    ensures r in Flatten(rs)
    decreases rs
  {
    if r != rs[0] {
      FlattenHasRoots(rs[1..], r);
    }
  }

  lemma {:induction false} FlattenClosedAt(rs: seq<Region>, r: Region, c: Region)
    requires r in Flatten(rs) && c in r.subregions
    ensures c in Flatten(rs)
    decreases rs
  {
    if r == rs[0] {
      FlattenHasRoots(rs[0].subregions, c);
    } else if r in Flatten(rs[0].subregions) {
      FlattenClosedAt(rs[0].subregions, r, c);
    } else {
      FlattenClosedAt(rs[1..], r, c);
    }
  }

  /** The walk finds every subregion of what it finds. */
  lemma FlattenClosed(rs: seq<Region>)
    ensures ClosedUnderSubregions(Flatten(rs))
  {
    forall r, c | r in Flatten(rs) && c in r.subregions
      ensures c in Flatten(rs)
    {
      FlattenClosedAt(rs, r, c);
    }
  }

  /** The walk finds nothing else: any set holding the roots and closed
      under subregions holds all of it. */
  lemma {:induction false} FlattenLeast(rs: seq<Region>, s: set<Region>)
    requires forall r :: r in rs ==> r in s
    requires ClosedUnderSubregions(s)
    ensures Flatten(rs) <= s
    decreases rs
  {
    if rs != [] {
      FlattenLeast(rs[0].subregions, s);
      FlattenLeast(rs[1..], s);
    }
  }

  /** `getAllRegions`: add each region and, when it has any, its subregions
      to the accumulator. */
  method GetAllRegions(regions: seq<Region>, accumulator: set<Region>) returns (all: set<Region>)
    ensures all == accumulator + Flatten(regions)
    decreases regions
  {
    all := accumulator;
    for i := 0 to |regions|
      invariant all == accumulator + Flatten(regions[..i])
    {
      var region := regions[i];
      all := all + {region};
      var subregions := region.subregions;
      if subregions != [] {
        all := GetAllRegions(subregions, all);
      }
      assert Flatten([region]) == {region} + Flatten(subregions) by {
        assert [region][1..] == [];
      }
      assert regions[..i + 1] == regions[..i] + [region];
      FlattenAppend(regions[..i], [region]);
    }
    assert regions[..|regions|] == regions;
  }

  // ---------------------------------------------------------------------
  // The largest object of one region

  /** The largest size among the non-null values, starting from 0; the
      message of the first value whose sizing throws, if any. */
  function Largest(values: seq<Option<Value>>, sizer: Value -> Measure): Result<nat, string>
  {
    if values == [] then Ok(0)
    else
      var init := values[..|values| - 1];
      match Largest(init, sizer)
      case Err(m) => Err(m)
      case Ok(k) =>
        match values[|values| - 1]
        case None => Ok(k)
        case Some(v) =>
          match sizer(v)
          case Thrown(m) => Err(m)
          case Bytes(n) => if k < n then Ok(n) else Ok(k)
  }

  /** The sizing of the value at index i succeeded with n bytes. */
  ghost predicate SizedAt(values: seq<Option<Value>>, i: int, n: nat, sizer: Value -> Measure)
    requires 0 <= i < |values|
  {
    values[i].Some? && sizer(values[i].value) == Bytes(n)
  }

  /** The value at index i is the first whose sizing throws, with message m. */
  ghost predicate FirstThrowAt(values: seq<Option<Value>>, i: int, m: string, sizer: Value -> Measure)
    requires 0 <= i < |values|
  {
    && values[i].Some? && sizer(values[i].value) == Thrown(m)
    && forall j :: 0 <= j < i && values[j].Some? ==> sizer(values[j].value).Bytes?
  }

  /** Largest succeeds exactly when no sizing throws; it is then the maximum
      of the sizes (0 when there are none), and otherwise the message of the
      first sizing that throws. */
  lemma {:induction false} LargestMeans(values: seq<Option<Value>>, sizer: Value -> Measure)
    ensures Largest(values, sizer).Ok? <==>
      forall i :: 0 <= i < |values| && values[i].Some? ==> sizer(values[i].value).Bytes?
    ensures Largest(values, sizer).Ok? ==>
      && (forall i :: 0 <= i < |values| && values[i].Some? && sizer(values[i].value).Bytes? ==>
            sizer(values[i].value).n <= Largest(values, sizer).value)
      && (Largest(values, sizer).value == 0 ||
          exists i :: 0 <= i < |values| && SizedAt(values, i, Largest(values, sizer).value, sizer))
    ensures Largest(values, sizer).Err? ==>
      exists i :: 0 <= i < |values| && FirstThrowAt(values, i, Largest(values, sizer).error, sizer)
  {
    if values != [] {
      var last := |values| - 1;
      var init := values[..last];
      LargestMeans(init, sizer);
      assert forall i :: 0 <= i < last ==> values[i] == init[i];
      match Largest(init, sizer)
      case Err(m) =>
        var i :| 0 <= i < |init| && FirstThrowAt(init, i, m, sizer);
        assert FirstThrowAt(values, i, m, sizer);
      case Ok(k) =>
        if values[last].Some? {
          match sizer(values[last].value)
          case Thrown(m) =>
            assert FirstThrowAt(values, last, m, sizer);
          case Bytes(n) =>
            assert SizedAt(values, last, n, sizer);
            if k != 0 && n <= k {
              var i :| 0 <= i < |init| && SizedAt(init, i, k, sizer);
              assert SizedAt(values, i, k, sizer);
            }
        } else if k != 0 {
          var i :| 0 <= i < |init| && SizedAt(init, i, k, sizer);
          assert SizedAt(values, i, k, sizer);
        }
    }
  }

  /** Appending one value extends the fold by one step. */
  lemma LargestSnoc(values: seq<Option<Value>>, v: Option<Value>, sizer: Value -> Measure)
    ensures Largest(values + [v], sizer) ==
      match Largest(values, sizer)
      case Err(m) => Err(m)
      case Ok(k) =>
        match v
        case None => Ok(k)
        case Some(x) =>
          match sizer(x)
          case Thrown(m) => Err(m)
          case Bytes(n) => if k < n then Ok(n) else Ok(k)
  {
    assert (values + [v])[..|values|] == values;
  }

  /** The values of entries, in order. */
  function ValuesOf(entries: seq<Entry>): (vs: seq<Option<Value>>)
    ensures |vs| == |entries|
    ensures forall i :: 0 <= i < |entries| ==> vs[i] == entries[i].value
  {
    seq(|entries|, i requires 0 <= i < |entries| => entries[i].value)
  }

  /** The first `n` results of a query, as `LIMIT n` keeps them. */
  function Limit(values: seq<Option<Value>>, n: nat): (r: seq<Option<Value>>)
    ensures |r| <= n && |r| <= |values|
    ensures r == values[..|r|]
    ensures |values| <= n ==> r == values
  {
    if |values| <= n then values else values[..n]
  }

  /** What one non-empty region yields: the largest object among at most 100
      of its non-null values, or the message of the query or sizing
      exception that stopped the analysis. `query` stands for the OQL
      `SELECT * FROM <fullPath>`: its results, or its exception's message. */
  function RegionLargest(region: Region, sizer: Value -> Measure,
                         query: string -> Result<seq<Option<Value>>, string>): Result<nat, string>
  {
    if |region.entries| > LargeRegion then
      match query(region.fullPath)
      case Err(m) => Err(m)
      case Ok(results) => Largest(Limit(results, SampleLimit), sizer)
    else
      Largest(ValuesOf(FirstPresent(region.entries, SampleLimit)), sizer)
  }

  /** The query path: the largest size among the query's results. */
  method ScanResults(results: seq<Option<Value>>, sizer: Value -> Measure) returns (maxBytes: Result<nat, string>)
    ensures maxBytes == Largest(results, sizer)
  {
    var max := 0;
    for i := 0 to |results|
      invariant Largest(results[..i], sizer) == Ok(max)
    {
      var value := results[i];
      LargestSnoc(results[..i], value, sizer);
      assert results[..i + 1] == results[..i] + [value];
      if value.Some? {
        match sizer(value.value) {
          case Thrown(m) =>
            LargestPrefix(results[..i + 1], results, sizer);
            return Err(m);
          case Bytes(size) =>
            if max < size {
              max := size;
            }
        }
      }
    }
    assert results[..|results|] == results;
    return Ok(max);
  }

  /** The iteration path: walk the keys, size each non-null value, and stop
      once 100 of them have been sized. */
  method ScanEntries(entries: seq<Entry>, sizer: Value -> Measure) returns (maxBytes: Result<nat, string>)
    ensures maxBytes == Largest(ValuesOf(FirstPresent(entries, SampleLimit)), sizer)
  {
    var max := 0;
    var checked := 0;
    var i := 0;
    ghost var met: seq<Entry> := [];
    while i < |entries|
      invariant 0 <= i <= |entries|
      invariant met == Present(entries[..i]) && checked == |met| <= SampleLimit
      invariant Largest(ValuesOf(met), sizer) == Ok(max)
    {
      if checked >= SampleLimit {
        break;
      }
      var entry := entries[i];
      PresentStep(entries, i);
      if entry.value.Some? {
        match sizer(entry.value.value) {
          case Thrown(m) =>
            MetThrows(entries, i, met, sizer);
            return Err(m);
          case Bytes(size) =>
            MetSized(met, entry, max, sizer);
            if max < size {
              max := size;
            }
            checked := checked + 1;
            met := met + [entry];
        }
      }
      i := i + 1;
    }
    FirstPresentFound(entries, i, met, SampleLimit);
    return Ok(max);
  }

  lemma ValuesOfSnoc(es: seq<Entry>, e: Entry)
    ensures ValuesOf(es + [e]) == ValuesOf(es) + [e.value]
  {
  }

  /** Sizing one more value moves the running maximum as the fold does. */
  lemma MetSized(met: seq<Entry>, entry: Entry, max: nat, sizer: Value -> Measure)
    requires Largest(ValuesOf(met), sizer) == Ok(max)
    requires entry.value.Some? && sizer(entry.value.value).Bytes?
    ensures Largest(ValuesOf(met + [entry]), sizer) ==
      Ok(if max < sizer(entry.value.value).n then sizer(entry.value.value).n else max)
  {
    ValuesOfSnoc(met, entry);
    LargestSnoc(ValuesOf(met), entry.value, sizer);
  }

  /** A sizing failure among the first 100 non-null values decides the
      outcome of the whole region. */
  lemma MetThrows(entries: seq<Entry>, i: nat, met: seq<Entry>, sizer: Value -> Measure)
    requires i < |entries| && met == Present(entries[..i]) && |met| < SampleLimit
    requires Largest(ValuesOf(met), sizer).Ok?
    requires entries[i].value.Some? && sizer(entries[i].value.value).Thrown?
    ensures Largest(ValuesOf(FirstPresent(entries, SampleLimit)), sizer) ==
      Err(sizer(entries[i].value.value).message)
  {
    var head := met + [entries[i]];
    PresentStep(entries, i);
    PresentPrefix(entries, i + 1);
    var all := Present(entries);
    assert all == head + Present(entries[i + 1..]);
    var first := FirstPresent(entries, SampleLimit);
    assert first == head + all[|head|..Min(SampleLimit, |all|)];
    LargestPrefix(ValuesOf(head), ValuesOf(first), sizer);
    assert Largest(ValuesOf(head), sizer) == Err(sizer(entries[i].value.value).message) by {
      LargestSnoc(ValuesOf(met), entries[i].value, sizer);
      ValuesOfSnoc(met, entries[i]);
    }
  }

  /** Once the fold has failed, looking at more values changes nothing. */
  lemma {:induction false} LargestPrefix(xs: seq<Option<Value>>, ys: seq<Option<Value>>, sizer: Value -> Measure)
    requires |xs| <= |ys| && xs == ys[..|xs|]
    requires Largest(xs, sizer).Err?
    ensures Largest(ys, sizer) == Largest(xs, sizer)
    decreases |ys|
  {
    if |xs| < |ys| {
      var init := ys[..|ys| - 1];
      assert xs == init[..|xs|];
      LargestPrefix(xs, init, sizer);
    } else {
      assert xs == ys;
    }
  }

  /** One region, as the body of the region loop computes it. */
  method AnalyzeRegion(region: Region, sizer: Value -> Measure,
                       query: string -> Result<seq<Option<Value>>, string>) returns (maxBytes: Result<nat, string>)
    ensures maxBytes == RegionLargest(region, sizer, query)
  {
    if |region.entries| > LargeRegion {
      match query(region.fullPath) {
        case Err(m) =>
          maxBytes := Err(m);
        case Ok(results) =>
          maxBytes := ScanResults(Limit(results, SampleLimit), sizer);
      }
    } else {
      maxBytes := ScanEntries(region.entries, sizer);
    }
  }

  // ---------------------------------------------------------------------
  // The report

  /** The lines a region contributes: none when it is empty or its largest
      object is 0 bytes, an error line when its analysis threw. */
  function RegionLines(region: Region, sizer: Value -> Measure,
                       query: string -> Result<seq<Option<Value>>, string>): seq<Line>
  {
    if |region.entries| == 0 then []
    else
      match RegionLargest(region, sizer, query)
      case Err(m) => [RegionError(region.name, m)]
      case Ok(n) => if n > 0 then [RegionMax(region.name, |region.entries|, n)] else []
  }

  /** The regions' lines in the order the regions were visited. */
  function RegionReport(order: seq<Region>, sizer: Value -> Measure,
                        query: string -> Result<seq<Option<Value>>, string>): seq<Line>
  {
    if order == [] then []
    else RegionReport(order[..|order| - 1], sizer, query) + RegionLines(order[|order| - 1], sizer, query)
  }

  /** What a region adds to the overall maximum: its largest object when it
      is non-empty and its analysis succeeded, 0 otherwise. */
  function Contribution(region: Region, sizer: Value -> Measure,
                        query: string -> Result<seq<Option<Value>>, string>): nat
  {
    if |region.entries| == 0 then 0
    else
      match RegionLargest(region, sizer, query)
      case Err(_) => 0
      case Ok(n) => n
  }

  /** m is the largest contribution of the regions, or 0 when there is none. */
  ghost predicate IsOverallMax(m: nat, regions: set<Region>, sizer: Value -> Measure,
                               query: string -> Result<seq<Option<Value>>, string>)
  {
    && (forall r :: r in regions ==> Contribution(r, sizer, query) <= m)
    && (m == 0 || exists r :: r in regions && Contribution(r, sizer, query) == m)
  }

  /** The overall maximum does not depend on the order of the walk: two
      values that are both the maximum of the same regions are equal. */
  lemma OverallMaxUnique(m1: nat, m2: nat, regions: set<Region>, sizer: Value -> Measure,
                         query: string -> Result<seq<Option<Value>>, string>)
    requires IsOverallMax(m1, regions, sizer, query) && IsOverallMax(m2, regions, sizer, query)
    ensures m1 == m2
  {
  }

  /** `order` lists the regions of `visited`, each exactly once. */
  ghost predicate Enumerates(order: seq<Region>, visited: set<Region>)
  {
    && (forall r :: r in order <==> r in visited)
    && (forall i, j :: 0 <= i < j < |order| ==> order[i] != order[j])
  }

  lemma EnumeratesStep(order: seq<Region>, visited: set<Region>, region: Region)
    requires Enumerates(order, visited) && region !in visited
    ensures Enumerates(order + [region], visited + {region})
  {
  }

  /** Folding one more region into the running maximum keeps it the
      maximum of the regions visited. */
  lemma OverallMaxStep(m: nat, visited: set<Region>, region: Region, sizer: Value -> Measure,
                       query: string -> Result<seq<Option<Value>>, string>)
    requires IsOverallMax(m, visited, sizer, query)
    ensures IsOverallMax(if m < Contribution(region, sizer, query) then Contribution(region, sizer, query) else m,
                         visited + {region}, sizer, query)
  {
  }

  lemma RegionReportSnoc(order: seq<Region>, region: Region, sizer: Value -> Measure,
                         query: string -> Result<seq<Option<Value>>, string>)
    ensures RegionReport(order + [region], sizer, query) ==
            RegionReport(order, sizer, query) + RegionLines(region, sizer, query)
  {
    assert (order + [region])[..|order|] == order;
  }

  /** The whole analysis. `member` is the member's name; `roots` the root
      regions. The regions are visited in the set's iteration order, which
      the model leaves open: `order` is the order chosen, each region of the
      hierarchy exactly once. */
  method Analyze(member: string, roots: seq<Region>, sizer: Value -> Measure,
                 query: string -> Result<seq<Option<Value>>, string>)
    returns (results: seq<Line>, ghost order: seq<Region>, overallMax: nat)
    ensures forall r :: r in order <==> r in Flatten(roots)
    ensures forall i, j :: 0 <= i < j < |order| ==> order[i] != order[j]
    ensures IsOverallMax(overallMax, Flatten(roots), sizer, query)
    ensures results == [Header(member), Blank] + RegionReport(order, sizer, query) +
                       [Blank, LargestObject(overallMax), Advice(Recommend(overallMax))]
  {
    var regionLines: seq<Line> := [];
    var allRegions := GetAllRegions(roots, {});
    var remaining := allRegions;
    ghost var visited: set<Region> := {};
    order := [];
    overallMax := 0;
    while remaining != {}
      invariant remaining + visited == allRegions && remaining !! visited
      invariant Enumerates(order, visited)
      invariant IsOverallMax(overallMax, visited, sizer, query)
      invariant regionLines == RegionReport(order, sizer, query)
      decreases remaining
    {
      var region :| region in remaining;
      var lines, contribution := RegionStep(region, sizer, query);
      regionLines := regionLines + lines;
      OverallMaxStep(overallMax, visited, region, sizer, query);
      if overallMax < contribution {
        overallMax := contribution;
      }
      RegionReportSnoc(order, region, sizer, query);
      EnumeratesStep(order, visited, region);
      order := order + [region];
      visited := visited + {region};
      remaining := remaining - {region};
    }
    results := [Header(member), Blank] + regionLines +
               [Blank, LargestObject(overallMax), Advice(Recommend(overallMax))];
  }

  /** The body of the region loop: skip an empty region, otherwise report
      its largest object or its error. */
  method RegionStep(region: Region, sizer: Value -> Measure,
                    query: string -> Result<seq<Option<Value>>, string>)
    returns (lines: seq<Line>, contribution: nat)
    ensures lines == RegionLines(region, sizer, query)
    ensures contribution == Contribution(region, sizer, query)
  {
    lines, contribution := [], 0;
    var regionSize := |region.entries|;
    if regionSize == 0 {
      return;
    }
    var maxBytes := AnalyzeRegion(region, sizer, query);
    match maxBytes {
      case Ok(n) =>
        if n > 0 {
          contribution := n;
          lines := [RegionMax(region.name, regionSize, n)];
        }
      case Err(m) =>
        lines := [RegionError(region.name, m)];
    }
  }

  /** The messages the sender receives for a list of lines: each line but
      the last with `sendResult`, the last with `lastResult`. */
  function Deliveries(lines: seq<Line>): (sent: seq<Message<Line>>)
    requires |lines| > 0
    ensures Closed(sent)
    ensures |sent| == |lines| && forall i :: 0 <= i < |lines| ==> sent[i].payload == lines[i]
  {
    seq(|lines| - 1, i requires 0 <= i < |lines| - 1 => Send(lines[i])) + [Last(lines[|lines| - 1])]
  }

  /** Send every line, closing the stream with the last one. */
  method SendAll(lines: seq<Line>, sender: Sender<Line>)
    requires |lines| > 0
    modifies sender
    ensures sender.sent == old(sender.sent) + Deliveries(lines)
  {
    for i := 0 to |lines| - 1
      invariant sender.sent == old(sender.sent) + seq(i, k requires 0 <= k < i => Send(lines[k]))
    {
      sender.SendResult(lines[i]);
    }
    sender.LastResult(lines[|lines| - 1]);
  }

  /** The function as deployed: analyse every region, then send the report. */
  method Execute(member: string, roots: seq<Region>, sizer: Value -> Measure,
                 query: string -> Result<seq<Option<Value>>, string>, sender: Sender<Line>)
    returns (results: seq<Line>, ghost order: seq<Region>, overallMax: nat)
    modifies sender
    ensures forall r :: r in order <==> r in Flatten(roots)
    ensures forall i, j :: 0 <= i < j < |order| ==> order[i] != order[j]
    ensures IsOverallMax(overallMax, Flatten(roots), sizer, query)
    ensures results == [Header(member), Blank] + RegionReport(order, sizer, query) +
                       [Blank, LargestObject(overallMax), Advice(Recommend(overallMax))]
    ensures sender.sent == old(sender.sent) + Deliveries(results)
  {
    results, order, overallMax := Analyze(member, roots, sizer, query);
    SendAll(results, sender);
  }
}
