# Scan coordination and memory-watermark triggers in Dafny

This project models two small stateful cores of a Chromium-based browser tree and proves properties about them.

**BLE scan manager (`LeScanManagerImpl`, Chromecast Bluetooth LE).** Many callers can ask for scanning, and one radio scan session serves all of them. The manager keeps:

- the set of live scan-handle ids;
- a counter for the next id;
- a per-address history of advertisement results.

It starts the radio when the first handle is issued and stops it when the last handle is released. Each address's history holds at most five results, newest first, with no two results carrying the same payload. A query collects every stored result that passes an optional filter and sorts the collection by descending RSSI. In `le_scan_manager.dfy`, module `LeScanManager`:

- The class `ScanManager` holds the manager's fields.
- The radio driver is an oracle. The outcome of each `StartScan`/`StopScan` is a method parameter, and every call to the driver is recorded in a ghost log, `radioCalls`.
- Observer notifications are recorded in a ghost append-only log, `notifications`.
- The object invariant `Valid()` states four things:
  - every live id is below the next-id counter, so each issued id is fresh;
  - the radio session is open exactly when handles are live;
  - the driver log never starts twice or stops twice in a row;
  - every stored history is valid: non-empty, capped, with distinct payloads and the right address.

**Background heap-profiling triggers (`BackgroundProfilingTriggers`).** A periodic memory dump reports each process's pid, type and private footprint in KB. For each profiled process the triggers keep a watermark: its footprint at the last report. A report is due in two cases:

- a process with no watermark goes over its type's trigger threshold;
- a process with a watermark has grown by more than the high-water-mark threshold since that watermark.

When a report is due, the triggers drop the watermarks of processes that are no longer profiled and request one report. `profiling_triggers.dfy`, module `ProfilingTriggers`, specifies the scan of a dump as a function over the dump's prefixes (`ScanDump`). The class `BackgroundProfilingTriggers` runs the same scan as an imperative loop over the dump, then erases entries from the watermark map in a second loop, and it is proved equal to the specification.

## Model

| member | source | states |
|---|---|---|
| LeScanManager.ScanManager.constructor | src/vivaldi/chromium/chromecast/device/bluetooth/le/le_scan_manager_impl.cc:57-61 | A new manager has no live handles, next id 0, an empty store and empty logs, and satisfies the invariant |
| LeScanManager.ScanManager.RequestScan | src/vivaldi/chromium/chromecast/device/bluetooth/le/le_scan_manager_impl.cc:80-96 | The driver is started only when no handle is live. A failed start yields no handle and changes no state or notification. Otherwise a fresh id, not among the live ones, is issued and added, the counter advances, and `ScanEnableChanged(true)` is sent exactly on the 0 -> 1 transition |
| LeScanManager.ScanManager.NotifyScanHandleDestroyed | src/vivaldi/chromium/chromecast/device/bluetooth/le/le_scan_manager_impl.cc:157-169 | The id (which must be live) is removed. The driver is stopped exactly when no handle is left. `ScanEnableChanged(false)` is sent only when that stop succeeds. The invariant is kept |
| LeScanManager.StartsMatchStops | src/vivaldi/chromium/chromecast/device/bluetooth/le/le_scan_manager_impl.cc:82-89 | In any log the manager can produce, successful starts equal stops, plus one if a session is open: one start per 0 -> 1 transition and one stop per 1 -> 0 transition |
| LeScanManager.AppendRadioCall | src/vivaldi/chromium/chromecast/device/bluetooth/le/le_scan_manager_impl.cc:162-167 | A start while closed or a stop while open keeps the log free of double starts and double stops, and determines whether the session is open afterwards |
| LeScanManager.ScanManager.ClearScanResults | src/vivaldi/chromium/chromecast/device/bluetooth/le/le_scan_manager_impl.cc:105-108 | Empties the store and changes nothing else; the invariant is kept |
| LeScanManager.ScanManager.OnScanResult | src/vivaldi/chromium/chromecast/device/bluetooth/le/le_scan_manager_impl.cc:110-134 | A payload the parser rejects changes nothing. Otherwise the address's history becomes `PushResult` of its old history (empty if absent), exactly one `NewScanResult` is sent, scanning state is untouched and every history stays valid |
| LeScanManager.WithoutPayload | src/vivaldi/chromium/chromecast/device/bluetooth/le/le_scan_manager_impl.cc:123-125 | Keeps exactly the entries whose payload differs from the new one, and never grows |
| LeScanManager.PushResult | src/vivaldi/chromium/chromecast/device/bluetooth/le/le_scan_manager_impl.cc:122-130 | The new result is first. The cap of 5 is kept. Every older entry that remains was already stored and has a different payload |
| LeScanManager.WithoutPayloadDistinct | src/vivaldi/chromium/chromecast/device/bluetooth/le/le_scan_manager_impl.cc:123-125 | Removing one payload keeps payloads pairwise distinct |
| LeScanManager.PushResultDistinct | src/vivaldi/chromium/chromecast/device/bluetooth/le/le_scan_manager_impl.cc:120-127 | After an insertion no two entries of a history share a payload |
| LeScanManager.WithoutPayloadIsSubsequence | src/vivaldi/chromium/chromecast/device/bluetooth/le/le_scan_manager_impl.cc:123-125 | `remove_if` keeps the surviving entries in their order |
| LeScanManager.DropLastIsSubsequence | src/vivaldi/chromium/chromecast/device/bluetooth/le/le_scan_manager_impl.cc:128-130 | Dropping the oldest entry keeps the rest an ordered subsequence |
| LeScanManager.PushResultKeepsOrder | src/vivaldi/chromium/chromecast/device/bluetooth/le/le_scan_manager_impl.cc:122-130 | Behind the new result, the surviving older entries keep their most-recent-first order |
| LeScanManager.PushResultEvictsOnlyOldest | src/vivaldi/chromium/chromecast/device/bluetooth/le/le_scan_manager_impl.cc:122-130 | An older entry with a different payload survives an insertion unless the list is at the cap and that entry is the oldest survivor: only same-payload entries and the single `pop_back` entry are lost |
| LeScanManager.PushResultValid | src/vivaldi/chromium/chromecast/device/bluetooth/le/le_scan_manager_impl.cc:120-130 | An insertion into an absent or valid history of the result's own address yields a valid history: non-empty, at most 5 entries, distinct payloads, all of that address |
| LeScanManager.Passing | src/vivaldi/chromium/chromecast/device/bluetooth/le/le_scan_manager_impl.cc:142-146 | An entry is kept exactly when it is in the history and passes the filter (no filter passes everything) |
| LeScanManager.PassingAll | src/vivaldi/chromium/chromecast/device/bluetooth/le/le_scan_manager_impl.cc:143 | When every entry passes, filtering returns the history unchanged |
| LeScanManager.MatchingAnyAddress | src/vivaldi/chromium/chromecast/device/bluetooth/le/le_scan_manager_impl.cc:141-147 | The multiset of matching results does not depend on the order in which addresses are visited |
| LeScanManager.InMatchingIff | src/vivaldi/chromium/chromecast/device/bluetooth/le/le_scan_manager_impl.cc:141-147 | A result is reported exactly when it is stored under some address and passes the filter |
| LeScanManager.SnapshotOfOneAddress | src/vivaldi/chromium/chromecast/device/bluetooth/le/le_scan_manager_impl.cc:141-147 | A filter that matches one address returns exactly that address's history, or nothing if the address is absent |
| LeScanManager.AppendPassing | src/vivaldi/chromium/chromecast/device/bluetooth/le/le_scan_manager_impl.cc:142-146 | The inner loop appends exactly the passing entries of one history, in order |
| LeScanManager.SwapAdjacent | src/vivaldi/chromium/chromecast/device/bluetooth/le/le_scan_manager_impl.cc:149-152 | One exchange step of the sort, which permutes the array |
| LeScanManager.SortByRssiDescending | src/vivaldi/chromium/chromecast/device/bluetooth/le/le_scan_manager_impl.cc:149-152 | The array ends up ordered by non-increasing RSSI and is a permutation of its old contents |
| LeScanManager.ScanManager.GetScanResultsInternal | src/vivaldi/chromium/chromecast/device/bluetooth/le/le_scan_manager_impl.cc:137-155 | The result is ordered by non-increasing RSSI and, as a multiset, is exactly the stored results that pass the filter |
| ProfilingTriggers.GetContentProcessType | src/vivaldi/chromium/chrome/browser/profiling_host/background_profiling_triggers.cc:46-72 | Every instrumentation process type maps to a content process type, and only `OTHER` maps to `PROCESS_TYPE_UNKNOWN` |
| ProfilingTriggers.IsOverTriggerThreshold | src/vivaldi/chromium/chrome/browser/profiling_host/background_profiling_triggers.cc:100-116 | Over the threshold exactly when the type is browser, GPU or renderer and the footprint strictly exceeds that type's trigger |
| ProfilingTriggers.ProcessTypeOverThreshold | src/vivaldi/chromium/chrome/browser/profiling_host/background_profiling_triggers.cc:46-116 | An instrumentation process type is over its threshold exactly when it is browser, GPU or renderer and its footprint exceeds that type's own limit |
| ProfilingTriggers.IsOverTriggerThresholdMonotonic | src/vivaldi/chromium/chrome/browser/profiling_host/background_profiling_triggers.cc:100-116 | A process over its threshold stays over it as its footprint grows |
| ProfilingTriggers.AddUint32 | src/vivaldi/chromium/chrome/browser/profiling_host/background_profiling_triggers.cc:156 | `uint32_t` addition: the exact sum below 2^32, the sum minus 2^32 otherwise |
| ProfilingTriggers.CheckProcess | src/vivaldi/chromium/chrome/browser/profiling_host/background_profiling_triggers.cc:149-168 | An unprofiled pid changes nothing. A known pid is flagged exactly when its footprint exceeds watermark + growth threshold (uint32 sum). A new pid is flagged exactly when it is over its type's threshold. A flagged pid's watermark becomes its footprint and nothing else changes |
| ProfilingTriggers.ScanDump | src/vivaldi/chromium/chrome/browser/profiling_host/background_profiling_triggers.cc:148-169 | Over the whole dump: no flag means no change. No watermark is ever removed. Watermarks of unprofiled pids are neither created nor altered |
| ProfilingTriggers.Prune | src/vivaldi/chromium/chrome/browser/profiling_host/background_profiling_triggers.cc:171-180 | Only entries that were already there and belong to profiled pids remain, and every profiled one keeps its value: nothing is added |
| ProfilingTriggers.ScanDumpBounded | src/vivaldi/chromium/chrome/browser/profiling_host/background_profiling_triggers.cc:149-169 | If every watermark and footprint is below a bound, so is every watermark after the scan |
| ProfilingTriggers.ScanDumpRaises | src/vivaldi/chromium/chrome/browser/profiling_host/background_profiling_triggers.cc:154-168 | When the sum cannot wrap, no watermark is lowered, and a flagged report always raised or created some watermark |
| ProfilingTriggers.ScanDumpReportIffChanged | src/vivaldi/chromium/chrome/browser/profiling_host/background_profiling_triggers.cc:148-169 | When the sum cannot wrap, a report is flagged exactly when the watermarks changed |
| ProfilingTriggers.WrapLowersWatermark | src/vivaldi/chromium/chrome/browser/profiling_host/background_profiling_triggers.cc:156-158 | With the sum wrapping, a watermark near 2^32 KB is replaced by a far smaller footprint and a report is flagged |
| ProfilingTriggers.BackgroundProfilingTriggers.constructor | src/vivaldi/chromium/chrome/browser/profiling_host/background_profiling_triggers.cc:76-80 | No watermarks and no reports requested at creation |
| ProfilingTriggers.BackgroundProfilingTriggers.EraseUnprofiledWatermarks | src/vivaldi/chromium/chrome/browser/profiling_host/background_profiling_triggers.cc:172-180 | Erasing while iterating over the map leaves exactly `Prune` of the old watermarks |
| ProfilingTriggers.BackgroundProfilingTriggers.OnReceivedMemoryDump | src/vivaldi/chromium/chrome/browser/profiling_host/background_profiling_triggers.cc:138-184 | A failed dump changes nothing. Otherwise the loop yields exactly `ScanDump` of the old watermarks. When it flags a report, the watermarks are pruned to the profiled pids and exactly one report is requested; when it does not, no report is requested |

## Left out

- Thread confinement is not modelled: the `MAKE_SURE_IO_THREAD` re-posting, task runners, `BindToCurrentSequence` and weak pointers. Each method models the body that runs on the confined thread.
- `ObserverListThreadSafe` and its cross-thread delivery are not modelled; the ghost `notifications` log records the order of the notifications instead.
- `AddObserver`, `RemoveObserver`, `Initialize` and `Finalize` are not modelled. They only touch the observer list or the task runner.
- The `RequestScan` and `GetScanResults` callbacks are not modelled; their results are returned directly.
- `ScanHandleImpl`'s destructor is not modelled; the model calls `NotifyScanHandleDestroyed` directly. A destroyed manager behind the weak pointer is not modelled.
- The radio driver (`LeScannerImpl`) is not modelled; the success of `StartScan`/`StopScan` is a parameter.
- `LeScanResult::SetAdvData` is a function parameter that may reject a payload. `le_scan_result.h` is not part of this model. Payload equality is equality of the raw advertisement bytes, and the parsed AD structures are carried as an opaque map.
- `ScanFilter::Matches` is an opaque predicate parameter.
- `LeScanManager.ScanManager.RequestScan`: the id counter is an unbounded integer starting at 0. The `int32_t` overflow of `next_scan_handle_id_` is not modelled, and its initial value comes from a header that is not part of this model.
- `LeScanManager.ScanManager.GetScanResultsInternal`: the order in which `std::map` visits addresses is not modelled. The result is specified as a multiset, which does not depend on that order. `std::sort` is not stable, so no order among equal RSSIs is claimed; the model sorts by insertion.
- `LeScanManager.ScanManager.NotifyScanHandleDestroyed`: the model follows the code, which sends `OnScanEnableChanged(false)` only after a successful `StopScan`. A failed stop is only logged, and the session counts as closed either way.
- The `DCHECK_EQ(num_removed, 1u)` in `NotifyScanHandleDestroyed` becomes the precondition that the id is live.
- `StartTimer`, the repeating timer and `kRepeatingCheckMemoryDelayInMinutes` are not modelled; they are clock plumbing.
- `IsAllowedToUpload` is not modelled; it is a metrics-consent query.
- `PerformMemoryUsageChecks` is not modelled. It only fetches the profiled pids and the dump asynchronously, and both are parameters of `OnReceivedMemoryDump`.
- `TriggerMemoryReport` and `ProfilingProcessHost::RequestProcessReport` become the counter `reportsRequested`.
- The platform constants are the two values `DesktopThresholds` and `AndroidThresholds`, selected by `OS_ANDROID`. The class takes its thresholds as a constructor argument.
- `content::ProcessType` is an `int` in the source; the model uses a datatype with the six values `GetContentProcessType` can produce.
- `ProfilingTriggers.ScanDumpRaises` and `ProfilingTriggers.ScanDumpReportIffChanged` are stated only for watermarks and footprints at most 2^32 - 1 - threshold KB. Above that, `it->second + kHighWaterMarkThresholdKb` wraps, as `WrapLowersWatermark` exhibits, and the properties fail. The model keeps the wrap-around the code has.
- Iteration order over `pmf_at_last_upload_` is not modelled. The erase loop visits keys in an arbitrary order, and its result does not depend on that order.
