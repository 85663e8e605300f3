/** Choosing the rows one clustering pass looks at (`aggregatorB`,
    src/lib/clusteringB.ts). */
module WindowSelection {
  import opened Basics
  import opened Records

  /** `rawData.slice(-1 * dataTicks)` when `dataTicks` is truthy, the whole
      buffer otherwise. A positive `dataTicks` keeps the last rows; a negative
      one turns into a positive slice start and drops that many leading rows. */
  function TakeWindow(raw: seq<Row>, dataTicks: Option<int>): (w: seq<Row>)
    ensures !TruthyInt(dataTicks) ==> w == raw
    ensures TruthyInt(dataTicks) && dataTicks.value > 0 ==>
      |w| == Min(dataTicks.value, |raw|) && w == raw[|raw| - |w|..]
    ensures TruthyInt(dataTicks) && dataTicks.value < 0 ==>
      w == raw[Min(-dataTicks.value, |raw|)..]
    ensures Uniform(raw) ==> Uniform(w)
  {
    var w := if TruthyInt(dataTicks) then Slice(raw, -dataTicks.value, |raw|) else raw;
    SuffixUniform(raw, w);
    w
  }

  /** Every window is a suffix of the buffer, so it keeps the buffer's shape. */
  lemma SuffixUniform(raw: seq<Row>, w: seq<Row>)
    requires |w| <= |raw| && w == raw[|raw| - |w|..]
    ensures Uniform(raw) ==> Uniform(w)
  {
    if Uniform(raw) && |w| > 0 {
      var d := |raw| - |w|;
      forall i | 0 <= i < |w|
        ensures forall k :: Has(w[i], k) <==> Has(w[0], k)
      {
        assert w[i] == raw[d + i] && w[0] == raw[d];
      }
    }
  }
}
