/** `run`, without the file loading: extract the strings, fail when there are
    none, extract the pointers, then run one scan per worker. The workers are
    threads in the library; here they run one after another, and the result
    keeps each worker's report lines apart because the printed lines of
    different threads may interleave in any order. */
module Pipeline {
  import opened Word32
  import opened Results
  import opened StringScan
  import opened PointerScan
  import opened Partition
  import opened BaseScan

  /** The options `find_matches` and the extractors read; the file name is
      not modelled. */
  datatype Config = Config(bigEndian: bool, minStrLen: U32, offset: Stride, threads: nat)

  datatype RunError = NoStringsFound   // "No strings found in target binary"

  /** One report stream per worker, each the complete output of that
      worker's scan over the strings and pointers of `buffer`. */
  ghost predicate WorkerStreams(config: Config, buffer: seq<Byte>, streams: seq<seq<Report>>) {
    && |streams| == config.threads
    && forall i :: 0 <= i < config.threads ==>
      && NoOverflow(i, config.threads)
      && IsReportStream(StringOffsets(buffer, config.minStrLen), PointerValues(buffer, config.bigEndian),
                        GetInterval(i, config.threads), config.offset, streams[i])
  }

  method Run(config: Config, buffer: seq<Byte>) returns (r: Result<seq<seq<Report>>, RunError>)
    requires ValidWorkers(config.threads)
    ensures r.Err? <==> StringOffsets(buffer, config.minStrLen) == {}
    ensures r.Ok? ==> WorkerStreams(config, buffer, r.value)
  {
    var strings := GetStrings(buffer, config.minStrLen);
    if strings == {} {
      return Err(NoStringsFound);
    }
    var pointers := GetPointers(buffer, config.bigEndian);
    var streams: seq<seq<Report>> := [];
    for i := 0 to config.threads
      invariant |streams| == i
      invariant forall j :: 0 <= j < i ==>
        && NoOverflow(j, config.threads)
        && IsReportStream(strings, pointers, GetInterval(j, config.threads), config.offset, streams[j])
    {
      WorkerNoOverflow(i, config.threads);
      var reports := FindMatches(strings, pointers, config.offset, i, config.threads);
      streams := streams + [reports];
    }
    return Ok(streams);
  }

  /** Running twice on the same image and options gives the same result,
      whatever order the workers ran in. */
  lemma RunDeterministic(config: Config, buffer: seq<Byte>,
                         r1: Result<seq<seq<Report>>, RunError>, r2: Result<seq<seq<Report>>, RunError>)
    requires r1.Err? <==> StringOffsets(buffer, config.minStrLen) == {}
    requires r2.Err? <==> StringOffsets(buffer, config.minStrLen) == {}
    requires r1.Ok? ==> WorkerStreams(config, buffer, r1.value)
    requires r2.Ok? ==> WorkerStreams(config, buffer, r2.value)
    ensures r1 == r2
  {
    if r1.Ok? {
      forall i | 0 <= i < config.threads
        ensures r1.value[i] == r2.value[i]
      {
        ReportStreamUnique(StringOffsets(buffer, config.minStrLen), PointerValues(buffer, config.bigEndian),
                           GetInterval(i, config.threads), config.offset, r1.value[i], r2.value[i]);
      }
      assert r1.value == r2.value;
    } else {
      assert r1.error == NoStringsFound == r2.error;
    }
  }
}
