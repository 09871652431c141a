/** Model of the memory-watermark triggers of background heap profiling
    (BackgroundProfilingTriggers).

    A periodic memory dump lists, per process, its pid, its process type and
    its private memory footprint in KB. For every profiled process the
    triggers keep a watermark: the footprint at the last report. A report is
    due when a process without a watermark first goes over the trigger
    threshold of its type, or when one with a watermark has grown by more
    than the high-water-mark threshold since. When a report is due,
    watermarks of processes no longer profiled are dropped and one report is
    requested. The number of reports requested is kept in a counter.
*/
module ProfilingTriggers {

  const Uint32Modulus: int := 0x1_0000_0000

  type uint32 = x: int | 0 <= x < Uint32Modulus

  /** memory_instrumentation::mojom::ProcessType */
  datatype ProcessType = Browser | Renderer | Gpu | Utility | Plugin | Other

  /** The content::ProcessType values that GetContentProcessType produces. */
  datatype ContentProcessType =
    | ProcessTypeUnknown
    | ProcessTypeBrowser
    | ProcessTypeRenderer
    | ProcessTypePluginDeprecated
    | ProcessTypeUtility
    | ProcessTypeGpu

  /** The platform constants: per-type trigger thresholds and the growth
      that re-arms a report, all in KB. */
  datatype Thresholds = Thresholds(
    browserProcessMallocTriggerKb: nat,
    gpuProcessMallocTriggerKb: nat,
    rendererProcessMallocTriggerKb: nat,
    highWaterMarkThresholdKb: uint32)

  const DesktopThresholds: Thresholds := Thresholds(400 * 1024, 400 * 1024, 500 * 1024, 500 * 1024)
  const AndroidThresholds: Thresholds := Thresholds(100 * 1024, 40 * 1024, 125 * 1024, 50 * 1024)

  /** One process entry of a global memory dump. */
  datatype ProcessDump = ProcessDump(pid: int, processType: ProcessType, privateFootprintKb: uint32)

  function GetContentProcessType(t: ProcessType): (c: ContentProcessType)
    ensures c == ProcessTypeUnknown <==> t == Other
  {
    match t
    case Browser => ProcessTypeBrowser
    case Renderer => ProcessTypeRenderer
    case Gpu => ProcessTypeGpu
    case Utility => ProcessTypeUtility
    case Plugin => ProcessTypePluginDeprecated
    case Other => ProcessTypeUnknown
  }

  datatype Option<T> = None | Some(value: T)

  /** The trigger limit of a content type, if it has one. */
  function TriggerLimitKb(c: ContentProcessType, th: Thresholds): Option<nat>
  {
    if c == ProcessTypeBrowser then Some(th.browserProcessMallocTriggerKb)
    else if c == ProcessTypeGpu then Some(th.gpuProcessMallocTriggerKb)
    else if c == ProcessTypeRenderer then Some(th.rendererProcessMallocTriggerKb)
    else None
  }

  function IsOverTriggerThreshold(c: ContentProcessType, privateFootprintKb: uint32, th: Thresholds): (over: bool)
    ensures over <==> TriggerLimitKb(c, th).Some? && privateFootprintKb > TriggerLimitKb(c, th).value
  {
    match c
    case ProcessTypeBrowser => privateFootprintKb > th.browserProcessMallocTriggerKb
    case ProcessTypeGpu => privateFootprintKb > th.gpuProcessMallocTriggerKb
    case ProcessTypeRenderer => privateFootprintKb > th.rendererProcessMallocTriggerKb
    case _ => false
  }

  /** Once over its threshold, a process stays over it as its footprint grows. */
  lemma IsOverTriggerThresholdMonotonic(c: ContentProcessType, smaller: uint32, larger: uint32, th: Thresholds)
    requires smaller <= larger
    ensures IsOverTriggerThreshold(c, smaller, th) ==> IsOverTriggerThreshold(c, larger, th)
  {
  }

  /** Classifying an instrumentation type and testing it against the trigger
      thresholds: only browser, GPU and renderer processes can trigger, each
      against its own limit. */
  lemma ProcessTypeOverThreshold(t: ProcessType, privateFootprintKb: uint32, th: Thresholds)
    ensures IsOverTriggerThreshold(GetContentProcessType(t), privateFootprintKb, th) <==>
      || (t == Browser && privateFootprintKb > th.browserProcessMallocTriggerKb)
      || (t == Gpu && privateFootprintKb > th.gpuProcessMallocTriggerKb)
      || (t == Renderer && privateFootprintKb > th.rendererProcessMallocTriggerKb)
  {
  }

  /** uint32_t addition, which wraps around. */
  function AddUint32(a: uint32, b: uint32): (sum: uint32)
    ensures a + b < Uint32Modulus ==> sum == a + b
    ensures a + b >= Uint32Modulus ==> sum == a + b - Uint32Modulus
  {
    (a + b) % Uint32Modulus
  }

  /** The watermarks and the report flag while a dump is being scanned. */
  datatype DumpScan = DumpScan(watermarks: map<int, uint32>, shouldSendReport: bool)

  /** One pass of the scan loop over one process entry. */
  function CheckProcess(marks: map<int, uint32>, proc: ProcessDump, profiledPids: seq<int>, th: Thresholds): (s: DumpScan)
    ensures s.shouldSendReport ==> proc.pid in profiledPids && s.watermarks == marks[proc.pid := proc.privateFootprintKb]
    ensures !s.shouldSendReport ==> s.watermarks == marks
    ensures proc.pid in profiledPids && proc.pid in marks ==>
      (s.shouldSendReport <==> proc.privateFootprintKb > AddUint32(marks[proc.pid], th.highWaterMarkThresholdKb))
    ensures proc.pid in profiledPids && proc.pid !in marks ==>
      (s.shouldSendReport <==> IsOverTriggerThreshold(GetContentProcessType(proc.processType), proc.privateFootprintKb, th))
  {
    if proc.pid !in profiledPids then DumpScan(marks, false)
    else if proc.pid in marks then
      if proc.privateFootprintKb > AddUint32(marks[proc.pid], th.highWaterMarkThresholdKb)
      then DumpScan(marks[proc.pid := proc.privateFootprintKb], true)
      else DumpScan(marks, false)
    else if IsOverTriggerThreshold(GetContentProcessType(proc.processType), proc.privateFootprintKb, th)
    then DumpScan(marks[proc.pid := proc.privateFootprintKb], true)
    else DumpScan(marks, false)
  }

  /** The scan loop over the whole dump, starting from watermarks `marks`. */
  function ScanDump(marks: map<int, uint32>, dump: seq<ProcessDump>, profiledPids: seq<int>, th: Thresholds): (s: DumpScan)
    ensures !s.shouldSendReport ==> s.watermarks == marks
    ensures marks.Keys <= s.watermarks.Keys
    ensures forall p :: p !in profiledPids ==>
      (p in s.watermarks <==> p in marks) && (p in marks ==> s.watermarks[p] == marks[p])
  {
    if dump == [] then DumpScan(marks, false)
    else
      var before := ScanDump(marks, dump[..|dump| - 1], profiledPids, th);
      var step := CheckProcess(before.watermarks, dump[|dump| - 1], profiledPids, th);
      DumpScan(step.watermarks, before.shouldSendReport || step.shouldSendReport)
  }

  /** Watermarks only for profiled pids, each kept at its value. */
  function Prune(marks: map<int, uint32>, profiledPids: seq<int>): (pruned: map<int, uint32>)
    ensures forall p :: p in pruned ==> p in marks && p in profiledPids
    ensures forall p :: p in marks && p in profiledPids ==> p in pruned && pruned[p] == marks[p]
  {
    map p | p in marks && p in profiledPids :: marks[p]
  }

  // ---------------------------------------------------------------------
  // Properties of the scan, assuming the uint32 sum does not wrap

  ghost predicate ValuesAtMost(marks: map<int, uint32>, bound: int)
  {
    forall p :: p in marks ==> marks[p] <= bound
  }

  ghost predicate FootprintsAtMost(dump: seq<ProcessDump>, bound: int)
  {
    forall i :: 0 <= i < |dump| ==> dump[i].privateFootprintKb <= bound
  }

  /** The largest value a watermark may take for `watermark + threshold` not to wrap. */
  function NoWrapBound(th: Thresholds): int
  {
    Uint32Modulus - 1 - th.highWaterMarkThresholdKb
  }

  lemma {:induction false} ScanDumpBounded(marks: map<int, uint32>, dump: seq<ProcessDump>, profiledPids: seq<int>, th: Thresholds, bound: int)
    requires ValuesAtMost(marks, bound) && FootprintsAtMost(dump, bound)
    ensures ValuesAtMost(ScanDump(marks, dump, profiledPids, th).watermarks, bound)
  {
    if dump != [] {
      ScanDumpBounded(marks, dump[..|dump| - 1], profiledPids, th, bound);
    }
  }

  /** Without wrap-around, the scan never lowers a watermark, and when it
      flags a report it has raised one or created one. */
  lemma {:induction false} ScanDumpRaises(marks: map<int, uint32>, dump: seq<ProcessDump>, profiledPids: seq<int>, th: Thresholds)
    requires ValuesAtMost(marks, NoWrapBound(th)) && FootprintsAtMost(dump, NoWrapBound(th))
    ensures var s := ScanDump(marks, dump, profiledPids, th);
      && (forall p :: p in marks ==> s.watermarks[p] >= marks[p])
      && (s.shouldSendReport ==> exists p :: p in s.watermarks && (p !in marks || s.watermarks[p] > marks[p]))
  {
    if dump != [] {
      var prefix := dump[..|dump| - 1];
      var proc := dump[|dump| - 1];
      ScanDumpRaises(marks, prefix, profiledPids, th);
      ScanDumpBounded(marks, prefix, profiledPids, th, NoWrapBound(th));
      var before := ScanDump(marks, prefix, profiledPids, th);
      var step := CheckProcess(before.watermarks, proc, profiledPids, th);
      var s := ScanDump(marks, dump, profiledPids, th);
      assert s.watermarks == step.watermarks;
      if step.shouldSendReport && proc.pid in before.watermarks {
        assert before.watermarks[proc.pid] <= NoWrapBound(th);
        assert step.watermarks[proc.pid] > before.watermarks[proc.pid];
      }
      if s.shouldSendReport {
        if before.shouldSendReport {
          var p :| p in before.watermarks && (p !in marks || before.watermarks[p] > marks[p]);
          assert p in s.watermarks && (p !in marks || s.watermarks[p] > marks[p]);
        } else {
          assert before.watermarks == marks;
          assert proc.pid in s.watermarks && (proc.pid !in marks || s.watermarks[proc.pid] > marks[proc.pid]);
        }
      }
    }
  }

  /** Without wrap-around, a report is flagged exactly when the scan changed
      the watermarks. */
  lemma ScanDumpReportIffChanged(marks: map<int, uint32>, dump: seq<ProcessDump>, profiledPids: seq<int>, th: Thresholds)
    requires ValuesAtMost(marks, NoWrapBound(th)) && FootprintsAtMost(dump, NoWrapBound(th))
    ensures var s := ScanDump(marks, dump, profiledPids, th);
      s.shouldSendReport <==> s.watermarks != marks
  {
    ScanDumpRaises(marks, dump, profiledPids, th);
  }

  /** As written, the uint32 sum can wrap: a watermark close to 2^32 KB is
      then replaced by a much smaller footprint, and a report is flagged. */
  lemma WrapLowersWatermark()
    ensures var s := ScanDump(map[7 := 0xFFFF_FFFF], [ProcessDump(7, Browser, 600 * 1024)], [7], DesktopThresholds);
      s.shouldSendReport && s.watermarks[7] == 600 * 1024
  {
  }

  // ---------------------------------------------------------------------
  // The triggers object

  class BackgroundProfilingTriggers {
    const thresholds: Thresholds
    var pmfAtLastUpload: map<int, uint32>
    var reportsRequested: nat

    constructor (thresholds: Thresholds)
      ensures this.thresholds == thresholds
      ensures pmfAtLastUpload == map[] && reportsRequested == 0
    {
      this.thresholds := thresholds;
      pmfAtLastUpload := map[];
      reportsRequested := 0;
    }

    /** Drops the watermarks of pids that are not profiled any more, erasing
        entries while iterating over the map. */
    method EraseUnprofiledWatermarks(profiledPids: seq<int>)
      modifies this`pmfAtLastUpload
      ensures pmfAtLastUpload == Prune(old(pmfAtLastUpload), profiledPids)
    {
      ghost var scanned := pmfAtLastUpload;
      var unvisited := pmfAtLastUpload.Keys;
      while exists p :: p in unvisited
        invariant unvisited <= scanned.Keys
        invariant forall p :: p in pmfAtLastUpload <==> p in scanned && (p in unvisited || p in profiledPids)
        invariant forall p :: p in pmfAtLastUpload ==> p in scanned && pmfAtLastUpload[p] == scanned[p]
        decreases unvisited
      {
        var pid :| pid in unvisited;
        if pid !in profiledPids {
          pmfAtLastUpload := pmfAtLastUpload - {pid};
        }
        unvisited := unvisited - {pid};
      }
      var pruned := Prune(scanned, profiledPids);
      assert forall p :: p in pmfAtLastUpload <==> p in pruned;
      assert forall p :: p in pruned ==> pmfAtLastUpload[p] == pruned[p];
    }

    /** Handles one memory dump: updates the watermarks and, when a report
        is due, drops watermarks of unprofiled pids and requests one report. */
    method OnReceivedMemoryDump(profiledPids: seq<int>, success: bool, dump: seq<ProcessDump>)
      modifies this
      ensures !success ==> pmfAtLastUpload == old(pmfAtLastUpload) && reportsRequested == old(reportsRequested)
      ensures success ==>
        var s := ScanDump(old(pmfAtLastUpload), dump, profiledPids, thresholds);
        && reportsRequested == old(reportsRequested) + (if s.shouldSendReport then 1 else 0)
        && pmfAtLastUpload == (if s.shouldSendReport then Prune(s.watermarks, profiledPids) else s.watermarks)
    {
      if !success {
        return;
      }
      var shouldSendReport := false;
      var i := 0;
      while i < |dump|
        invariant 0 <= i <= |dump|
        invariant DumpScan(pmfAtLastUpload, shouldSendReport) == ScanDump(old(pmfAtLastUpload), dump[..i], profiledPids, thresholds)
        invariant reportsRequested == old(reportsRequested)
      {
        var proc := dump[i];
        assert dump[..i + 1][..i] == dump[..i];
        if proc.pid in profiledPids {
          var footprint := proc.privateFootprintKb;
          if proc.pid in pmfAtLastUpload {
            if footprint > AddUint32(pmfAtLastUpload[proc.pid], thresholds.highWaterMarkThresholdKb) {
              shouldSendReport := true;
              pmfAtLastUpload := pmfAtLastUpload[proc.pid := footprint];
            }
          } else if IsOverTriggerThreshold(GetContentProcessType(proc.processType), footprint, thresholds) {
            shouldSendReport := true;
            pmfAtLastUpload := pmfAtLastUpload[proc.pid := footprint];
          }
        }
        i := i + 1;
      }
      assert dump[..i] == dump;
      if shouldSendReport {
        EraseUnprofiledWatermarks(profiledPids);
        reportsRequested := reportsRequested + 1;
      }
    }
  }
}
