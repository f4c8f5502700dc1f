/** The G1 region-size rule shared by MaxSizeSummarizer and
    RegionSizeAnalyzer: the largest object found, in MiB, is compared
    against 8 and 16. Dividing by 1024 twice is exact, so the rule is stated
    on whole bytes, and the contract ties it back to the MiB comparisons. */
module Recommender {

  const MiB: nat := 1048576

  /** `-XX:G1HeapRegionSize=16M`, `=32M`, or keep 32M with the warning that
      the object will be humongous. */
  datatype Recommendation = Region16M | Region32M | Keep32MHumongous

  function Megabytes(bytes: nat): real
  {
    (bytes as real) / 1024.0 / 1024.0
  }

  function Recommend(maxBytes: nat): (r: Recommendation)
    ensures r == Region16M <==> Megabytes(maxBytes) < 8.0
    ensures r == Region32M <==> 8.0 <= Megabytes(maxBytes) < 16.0
    ensures r == Keep32MHumongous <==> 16.0 <= Megabytes(maxBytes)
  {
    if maxBytes < 8 * MiB then Region16M
    else if maxBytes < 16 * MiB then Region32M
    else Keep32MHumongous
  }

  /** Exactly 8 MiB already needs 32M regions; exactly 16 MiB is humongous. */
  lemma RecommendBoundaries()
    ensures Recommend(8388607) == Region16M
    ensures Recommend(8388608) == Region32M
    ensures Recommend(16777215) == Region32M
    ensures Recommend(16777216) == Keep32MHumongous
  {
  }
}
