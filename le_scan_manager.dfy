/** Model of the Chromecast BLE scan manager (LeScanManagerImpl).

    Many callers ask for scanning; one radio scan session serves them all.
    The manager keeps the set of live scan-handle ids and a counter for the
    next id, starts the radio on the empty -> non-empty transition of that
    set and stops it on the non-empty -> empty transition. Advertisements are
    kept per device address, most recent first, deduplicated by payload and
    capped at MaxMessagesInQueue entries; queries flatten the store, filter
    it and sort it by descending RSSI.

    The radio driver is an oracle: the outcome of each StartScan/StopScan is
    a parameter, and every call made to it is recorded in a ghost log.
    Observer notifications are recorded in a ghost, append-only log.
*/
module LeScanManager {

  newtype byte = x: int | 0 <= x < 256

  /** A Bluetooth device address. */
  type Address = seq<byte>

  /** Advertisement payloads parsed into AD structures: AD type -> payloads. */
  type AdStructures = map<byte, seq<seq<byte>>>

  datatype Option<T> = None | Some(value: T)

  /** A scan event as the radio driver delivers it. */
  datatype RawScanResult = RawScanResult(addr: Address, rssi: int, advData: seq<byte>)

  /** A scan result whose advertisement data parsed successfully. */
  datatype ScanResult = ScanResult(addr: Address, rssi: int, advData: seq<byte>, typeToData: AdStructures)

  /** The capability handed to a caller of RequestScan; releasing it releases the scan. */
  datatype ScanHandle = ScanHandle(id: int)

  /** What observers are told. */
  datatype Notification = ScanEnableChanged(isEnabled: bool) | NewScanResult(result: ScanResult)

  /** A call made to the radio driver, with the outcome the driver reported. */
  datatype RadioCall = StartScan(succeeded: bool) | StopScan(succeeded: bool)

  const MaxMessagesInQueue: nat := 5

  // ---------------------------------------------------------------------
  // Radio session bookkeeping

  /** Whether the manager holds a radio scan session open after the calls in
      `log`: a successful start opens it, any stop closes it (a failed stop is
      only logged by the manager, which considers the session over). */
  function SessionOpen(log: seq<RadioCall>): bool
  {
    if log == [] then false
    else match log[|log| - 1]
      case StartScan(ok) => ok || SessionOpen(log[..|log| - 1])
      case StopScan(_) => false
  }

  /** No double start and no double stop: the driver is asked to start only
      while no session is open and to stop only while one is. */
  ghost predicate WellFormedRadioLog(log: seq<RadioCall>)
  {
    forall i :: 0 <= i < |log| ==>
      (log[i].StartScan? ==> !SessionOpen(log[..i])) &&
      (log[i].StopScan? ==> SessionOpen(log[..i]))
  }

  function SuccessfulStarts(log: seq<RadioCall>): nat
  {
    if log == [] then 0
    else SuccessfulStarts(log[..|log| - 1]) + (if log[|log| - 1] == StartScan(true) then 1 else 0)
  }

  function Stops(log: seq<RadioCall>): nat
  {
    if log == [] then 0
    else Stops(log[..|log| - 1]) + (if log[|log| - 1].StopScan? then 1 else 0)
  }

  /** Appending a call the manager is allowed to make keeps the log well formed. */
  lemma AppendRadioCall(log: seq<RadioCall>, c: RadioCall)
    requires WellFormedRadioLog(log)
    requires c.StartScan? ==> !SessionOpen(log)
    requires c.StopScan? ==> SessionOpen(log)
    ensures WellFormedRadioLog(log + [c])
    ensures SessionOpen(log + [c]) == (c == StartScan(true) || (c == StartScan(false) && SessionOpen(log)))
  {
    var log' := log + [c];
    assert log'[..|log|] == log;
    forall i | 0 <= i < |log'|
      ensures log'[i].StartScan? ==> !SessionOpen(log'[..i])
      ensures log'[i].StopScan? ==> SessionOpen(log'[..i])
    {
      if i < |log| {
        assert log'[..i] == log[..i];
      }
    }
  }

  /** In a well-formed log every successful start is matched by exactly one
      stop, except for the start of the session that is still open: the radio
      is started once per 0 -> 1 transition and stopped once per 1 -> 0
      transition. */
  lemma {:induction false} StartsMatchStops(log: seq<RadioCall>)
    requires WellFormedRadioLog(log)
    ensures SuccessfulStarts(log) == Stops(log) + (if SessionOpen(log) then 1 else 0)
  {
    if log != [] {
      var prefix := log[..|log| - 1];
      forall i | 0 <= i < |prefix|
        ensures prefix[i].StartScan? ==> !SessionOpen(prefix[..i])
        ensures prefix[i].StopScan? ==> SessionOpen(prefix[..i])
      {
        assert prefix[..i] == log[..i];
      }
      StartsMatchStops(prefix);
      assert log[..|log| - 1] == prefix;
    }
  }

  // ---------------------------------------------------------------------
  // Per-address history

  /** The entries of `history` whose payload differs from `advData`, in their
      original order (std::list::remove_if with payload equality). */
  function WithoutPayload(history: seq<ScanResult>, advData: seq<byte>): (kept: seq<ScanResult>)
    ensures |kept| <= |history|
    ensures forall r :: r in kept <==> r in history && r.advData != advData
  {
    if history == [] then []
    else (if history[0].advData == advData then [] else [history[0]]) + WithoutPayload(history[1..], advData)
  }

  /** The history stored for `addr`; operator[] creates an empty one when absent. */
  function HistoryOf(store: map<Address, seq<ScanResult>>, addr: Address): seq<ScanResult>
  {
    if addr in store then store[addr] else []
  }

  /** The history of one address after `r` arrives: equal payloads removed,
      `r` in front, the oldest entry dropped when the cap is exceeded. */
  function PushResult(history: seq<ScanResult>, r: ScanResult): (updated: seq<ScanResult>)
    ensures updated != [] && updated[0] == r
    ensures |history| <= MaxMessagesInQueue ==> |updated| <= MaxMessagesInQueue
    ensures forall e :: e in updated[1..] ==> e in history && e.advData != r.advData
  {
    var pushed := [r] + WithoutPayload(history, r.advData);
    if |pushed| > MaxMessagesInQueue then pushed[..|pushed| - 1] else pushed
  }

  ghost predicate DistinctPayloads(history: seq<ScanResult>)
  {
    forall i, j :: 0 <= i < j < |history| ==> history[i].advData != history[j].advData
  }

  /** What the store keeps for each address: a non-empty, capped list of
      results for that address with pairwise different payloads. */
  ghost predicate ValidHistory(addr: Address, history: seq<ScanResult>)
  {
    && history != []
    && |history| <= MaxMessagesInQueue
    && DistinctPayloads(history)
    && (forall r :: r in history ==> r.addr == addr)
  }

  lemma {:induction false} WithoutPayloadDistinct(history: seq<ScanResult>, advData: seq<byte>)
    requires DistinctPayloads(history)
    ensures DistinctPayloads(WithoutPayload(history, advData))
  {
    if history != [] {
      var rest := history[1..];
      assert DistinctPayloads(rest) by {
        forall i, j | 0 <= i < j < |rest| ensures rest[i].advData != rest[j].advData {
          assert rest[i] == history[i + 1] && rest[j] == history[j + 1];
        }
      }
      WithoutPayloadDistinct(rest, advData);
      var tail := WithoutPayload(rest, advData);
      if history[0].advData != advData {
        forall e | e in tail ensures e.advData != history[0].advData {
          var k :| 0 <= k < |rest| && rest[k] == e;
          assert history[k + 1] == e;
        }
        var kept := [history[0]] + tail;
        forall i, j | 0 <= i < j < |kept| ensures kept[i].advData != kept[j].advData {
          if i == 0 {
            assert kept[j] in tail;
          } else {
            assert kept[i] == tail[i - 1] && kept[j] == tail[j - 1];
          }
        }
      }
    }
  }

  /** A new result never duplicates a payload already in the history. */
  lemma PushResultDistinct(history: seq<ScanResult>, r: ScanResult)
    requires DistinctPayloads(history)
    ensures DistinctPayloads(PushResult(history, r))
  {
    var tail := WithoutPayload(history, r.advData);
    WithoutPayloadDistinct(history, r.advData);
    var pushed := [r] + tail;
    forall i, j | 0 <= i < j < |pushed| ensures pushed[i].advData != pushed[j].advData {
      if i == 0 {
        assert pushed[j] in tail;
      } else {
        assert pushed[i] == tail[i - 1] && pushed[j] == tail[j - 1];
      }
    }
  }

  /** `s` is `t` with some elements left out, the rest in their order. */
  ghost predicate IsSubsequence<T>(s: seq<T>, t: seq<T>)
    decreases |t|
  {
    if s == [] then true
    else if t == [] then false
    else (s[0] == t[0] && IsSubsequence(s[1..], t[1..])) || IsSubsequence(s, t[1..])
  }

  lemma {:induction false} WithoutPayloadIsSubsequence(history: seq<ScanResult>, advData: seq<byte>)
    ensures IsSubsequence(WithoutPayload(history, advData), history)
    decreases |history|
  {
    if history != [] {
      var tail := WithoutPayload(history[1..], advData);
      WithoutPayloadIsSubsequence(history[1..], advData);
      if history[0].advData != advData {
        assert WithoutPayload(history, advData)[1..] == tail;
      } else {
        assert WithoutPayload(history, advData) == tail;
      }
    }
  }

  lemma {:induction false} DropLastIsSubsequence<T>(s: seq<T>, t: seq<T>)
    requires s != [] && IsSubsequence(s, t)
    ensures IsSubsequence(s[..|s| - 1], t)
    decreases |t|
  {
    if |s| > 1 && t != [] {
      if s[0] == t[0] && IsSubsequence(s[1..], t[1..]) {
        DropLastIsSubsequence(s[1..], t[1..]);
        assert s[1..][..|s| - 2] == s[..|s| - 1][1..];
      } else {
        DropLastIsSubsequence(s, t[1..]);
      }
    }
  }

  /** The older entries that survive an insertion keep their relative order. */
  lemma PushResultKeepsOrder(history: seq<ScanResult>, r: ScanResult)
    ensures IsSubsequence(PushResult(history, r)[1..], history)
  {
    var tail := WithoutPayload(history, r.advData);
    WithoutPayloadIsSubsequence(history, r.advData);
    var pushed := [r] + tail;
    assert pushed[1..] == tail;
    if |pushed| > MaxMessagesInQueue {
      DropLastIsSubsequence(tail, history);
      assert pushed[..|pushed| - 1][1..] == tail[..|tail| - 1];
    }
  }

  /** The only entries an insertion loses are those with the new payload and,
      when the list is over the cap, the single oldest survivor. */
  lemma PushResultEvictsOnlyOldest(history: seq<ScanResult>, r: ScanResult, e: ScanResult)
    requires e in history && e.advData != r.advData
    ensures var kept := WithoutPayload(history, r.advData);
      || e in PushResult(history, r)
      || (|kept| >= MaxMessagesInQueue && e == kept[|kept| - 1])
  {
    var kept := WithoutPayload(history, r.advData);
    var pushed := [r] + kept;
    assert e in kept;
    var k :| 0 <= k < |kept| && kept[k] == e;
    assert pushed[k + 1] == e;
    if |pushed| > MaxMessagesInQueue && k < |kept| - 1 {
      assert pushed[..|pushed| - 1][k + 1] == e;
    }
  }

  /** Adding a result to a valid history of its own address keeps it valid. */
  lemma PushResultValid(addr: Address, history: seq<ScanResult>, r: ScanResult)
    requires history == [] || ValidHistory(addr, history)
    requires r.addr == addr
    ensures ValidHistory(addr, PushResult(history, r))
  {
    PushResultDistinct(history, r);
    var updated := PushResult(history, r);
    forall e | e in updated ensures e.addr == addr {
      if e != r {
        var k :| 0 <= k < |updated| && updated[k] == e;
        assert e in updated[1..];
      }
    }
  }

  // ---------------------------------------------------------------------
  // Queries

  /** Whether `r` passes the optional filter (no filter matches everything). */
  predicate Accepts(filter: Option<ScanResult -> bool>, r: ScanResult)
  {
    match filter
    case None => true
    case Some(matches) => matches(r)
  }

  /** The entries of `s` that pass the filter, in order. */
  function Passing(s: seq<ScanResult>, filter: Option<ScanResult -> bool>): (p: seq<ScanResult>)
    ensures forall r :: r in p <==> r in s && Accepts(filter, r)
  {
    if s == [] then []
    else Passing(s[..|s| - 1], filter) + (if Accepts(filter, s[|s| - 1]) then [s[|s| - 1]] else [])
  }

  /** All stored entries that pass the filter, over every address. */
  ghost function Matching(store: map<Address, seq<ScanResult>>, filter: Option<ScanResult -> bool>): multiset<ScanResult>
    decreases |store.Keys|
  {
    if store == map[] then multiset{}
    else
      var addr :| addr in store;
      assert (store - {addr}).Keys < store.Keys;
      multiset(Passing(store[addr], filter)) + Matching(store - {addr}, filter)
  }

  /** Matching may take the addresses in any order. */
  lemma {:induction false} MatchingAnyAddress(store: map<Address, seq<ScanResult>>, filter: Option<ScanResult -> bool>, addr: Address)
    requires addr in store
    ensures Matching(store, filter) == multiset(Passing(store[addr], filter)) + Matching(store - {addr}, filter)
    decreases |store.Keys|
  {
    var chosen :| chosen in store && Matching(store, filter) == multiset(Passing(store[chosen], filter)) + Matching(store - {chosen}, filter);
    if chosen != addr {
      var withoutChosen := store - {chosen};
      var withoutAddr := store - {addr};
      var both := withoutChosen - {addr};
      assert withoutChosen.Keys < store.Keys;
      assert withoutAddr.Keys < store.Keys;
      assert withoutAddr - {chosen} == both;
      MatchingAnyAddress(withoutChosen, filter, addr);
      MatchingAnyAddress(withoutAddr, filter, chosen);
    }
  }

  /** An entry is reported iff it is stored under some address and passes the filter. */
  lemma {:induction false} InMatchingIff(store: map<Address, seq<ScanResult>>, filter: Option<ScanResult -> bool>, r: ScanResult)
    ensures r in Matching(store, filter) <==> Accepts(filter, r) && exists addr :: addr in store && r in store[addr]
    decreases |store.Keys|
  {
    if store != map[] {
      var addr :| addr in store;
      MatchingAnyAddress(store, filter, addr);
      var rest := store - {addr};
      assert rest.Keys < store.Keys;
      InMatchingIff(rest, filter, r);
      if Accepts(filter, r) && exists a :: a in store && r in store[a] {
        var a :| a in store && r in store[a];
        if a != addr {
          assert a in rest && r in rest[a];
        }
      }
    }
  }

  /** A filter that matches exactly one address yields exactly that
      address's history, whatever else is stored. */
  lemma SnapshotOfOneAddress(store: map<Address, seq<ScanResult>>, matches: ScanResult -> bool, target: Address)
    requires forall a, r :: a in store && r in store[a] ==> r.addr == a
    requires forall r :: matches(r) <==> r.addr == target
    ensures Matching(store, Some(matches)) == if target in store then multiset(store[target]) else multiset{}
  {
    var filter := Some(matches);
    var rest := if target in store then store - {target} else store;
    if target in store {
      MatchingAnyAddress(store, filter, target);
      PassingAll(store[target], filter);
    }
    forall r ensures r !in Matching(rest, filter) {
      InMatchingIff(rest, filter, r);
    }
    assert Matching(rest, filter) == multiset{};
  }

  lemma {:induction false} PassingAll(s: seq<ScanResult>, filter: Option<ScanResult -> bool>)
    requires forall r :: r in s ==> Accepts(filter, r)
    ensures Passing(s, filter) == s
  {
    if s != [] {
      PassingAll(s[..|s| - 1], filter);
      assert s[..|s| - 1] + [s[|s| - 1]] == s;
    }
  }

  ghost predicate SortedByRssi(s: seq<ScanResult>)
  {
    forall i, j :: 0 <= i < j < |s| ==> s[i].rssi >= s[j].rssi
  }

  /** Exchanges two adjacent elements, keeping the multiset of elements. */
  method SwapAdjacent(a: array<ScanResult>, j: nat)
    requires 0 < j < a.Length
    modifies a
    ensures a[..] == old(a[..])[j - 1 := old(a[j])][j := old(a[j - 1])]
    ensures multiset(a[..]) == old(multiset(a[..]))
  {
    a[j - 1], a[j] := a[j], a[j - 1];
  }

  /** Sorts by non-increasing RSSI in place (std::sort with `d1.rssi > d2.rssi`). */
  method SortByRssiDescending(a: array<ScanResult>)
    modifies a
    ensures SortedByRssi(a[..])
    ensures multiset(a[..]) == old(multiset(a[..]))
  {
    var i := 1;
    while i < a.Length
      invariant a.Length == 0 || 1 <= i <= a.Length
      invariant forall k, l :: 0 <= k < l < i && l < a.Length ==> a[k].rssi >= a[l].rssi
      invariant multiset(a[..]) == old(multiset(a[..]))
    {
      var j := i;
      while j > 0 && a[j - 1].rssi < a[j].rssi
        invariant 0 <= j <= i
        invariant forall k, l :: 0 <= k < l <= i && l != j ==> a[k].rssi >= a[l].rssi
        invariant 0 < j < i ==> a[j - 1].rssi >= a[j + 1].rssi
        invariant multiset(a[..]) == old(multiset(a[..]))
      {
        SwapAdjacent(a, j);
        j := j - 1;
      }
      i := i + 1;
    }
  }

  /** Appends to `collected` the entries of `history` that pass the filter, in order. */
  method AppendPassing(collected: seq<ScanResult>, history: seq<ScanResult>, filter: Option<ScanResult -> bool>)
    returns (extended: seq<ScanResult>)
    ensures extended == collected + Passing(history, filter)
  {
    extended := collected;
    var i := 0;
    while i < |history|
      invariant 0 <= i <= |history|
      invariant extended == collected + Passing(history[..i], filter)
    {
      if Accepts(filter, history[i]) {
        extended := extended + [history[i]];
      }
      assert history[..i + 1][..i] == history[..i];
      i := i + 1;
    }
    assert history[..i] == history;
  }

  // ---------------------------------------------------------------------
  // The manager

  class ScanManager {
    var scanHandleIds: set<int>
    var nextScanHandleId: int
    var addrToScanResults: map<Address, seq<ScanResult>>
    ghost var notifications: seq<Notification>
    ghost var radioCalls: seq<RadioCall>

    ghost predicate Valid()
      reads this
    {
      && (forall id :: id in scanHandleIds ==> id < nextScanHandleId)
      && WellFormedRadioLog(radioCalls)
      && (SessionOpen(radioCalls) <==> scanHandleIds != {})
      && (forall a :: a in addrToScanResults ==> ValidHistory(a, addrToScanResults[a]))
    }

    constructor ()
      ensures Valid()
      ensures scanHandleIds == {} && nextScanHandleId == 0 && addrToScanResults == map[]
      ensures notifications == [] && radioCalls == []
    {
      scanHandleIds := {};
      nextScanHandleId := 0;
      addrToScanResults := map[];
      notifications := [];
      radioCalls := [];
    }

    /** Issues a scan handle, starting the radio first when no handle is live.
        `startSucceeds` is what the driver's StartScan reports, if it is called. */
    method RequestScan(startSucceeds: bool) returns (handle: Option<ScanHandle>)
      requires Valid()
      modifies this
      ensures Valid()
      ensures addrToScanResults == old(addrToScanResults)
      ensures radioCalls == old(radioCalls) + (if old(scanHandleIds) == {} then [StartScan(startSucceeds)] else [])
      ensures old(scanHandleIds) == {} && !startSucceeds ==>
        && handle == None
        && scanHandleIds == {}
        && nextScanHandleId == old(nextScanHandleId)
        && notifications == old(notifications)
      ensures old(scanHandleIds) != {} || startSucceeds ==>
        && handle == Some(ScanHandle(old(nextScanHandleId)))
        && old(nextScanHandleId) !in old(scanHandleIds)
        && scanHandleIds == old(scanHandleIds) + {old(nextScanHandleId)}
        && nextScanHandleId == old(nextScanHandleId) + 1
        && notifications == old(notifications) + (if old(scanHandleIds) == {} then [ScanEnableChanged(true)] else [])
    {
      if scanHandleIds == {} {
        AppendRadioCall(radioCalls, StartScan(startSucceeds));
        radioCalls := radioCalls + [StartScan(startSucceeds)];
        if !startSucceeds {
          handle := None;
          return;
        }
        notifications := notifications + [ScanEnableChanged(true)];
      }
      var id := nextScanHandleId;
      nextScanHandleId := nextScanHandleId + 1;
      scanHandleIds := scanHandleIds + {id};
      handle := Some(ScanHandle(id));
    }

    /** Releases the handle with id `id`, stopping the radio when it was the
        last live one. `stopSucceeds` is what the driver's StopScan reports,
        if it is called. */
    method NotifyScanHandleDestroyed(id: int, stopSucceeds: bool)
      requires Valid()
      requires id in scanHandleIds
      modifies this
      ensures Valid()
      ensures scanHandleIds == old(scanHandleIds) - {id}
      ensures nextScanHandleId == old(nextScanHandleId)
      ensures addrToScanResults == old(addrToScanResults)
      ensures radioCalls == old(radioCalls) + (if scanHandleIds == {} then [StopScan(stopSucceeds)] else [])
      ensures notifications == old(notifications) + (if scanHandleIds == {} && stopSucceeds then [ScanEnableChanged(false)] else [])
    {
      scanHandleIds := scanHandleIds - {id};
      if scanHandleIds == {} {
        AppendRadioCall(radioCalls, StopScan(stopSucceeds));
        radioCalls := radioCalls + [StopScan(stopSucceeds)];
        if stopSucceeds {
          notifications := notifications + [ScanEnableChanged(false)];
        }
      }
    }

    /** Empties the result store; scanning state is untouched. */
    method ClearScanResults()
      requires Valid()
      modifies this`addrToScanResults
      ensures Valid()
      ensures addrToScanResults == map[]
    {
      addrToScanResults := map[];
    }

    /** Records a scan event. `setAdvData` is the advertisement parser, which
        may reject the payload; a rejected event changes nothing. */
    method OnScanResult(raw: RawScanResult, setAdvData: seq<byte> -> Option<AdStructures>)
      requires Valid()
      modifies this
      ensures Valid()
      ensures scanHandleIds == old(scanHandleIds) && nextScanHandleId == old(nextScanHandleId)
      ensures radioCalls == old(radioCalls)
      ensures setAdvData(raw.advData).None? ==>
        addrToScanResults == old(addrToScanResults) && notifications == old(notifications)
      ensures setAdvData(raw.advData).Some? ==>
        var r := ScanResult(raw.addr, raw.rssi, raw.advData, setAdvData(raw.advData).value);
        && addrToScanResults == old(addrToScanResults)[raw.addr := PushResult(HistoryOf(old(addrToScanResults), raw.addr), r)]
        && notifications == old(notifications) + [NewScanResult(r)]
    {
      var parsed := setAdvData(raw.advData);
      if parsed.None? {
        return;
      }
      var result := ScanResult(raw.addr, raw.rssi, raw.advData, parsed.value);
      var previous := HistoryOf(addrToScanResults, result.addr);
      PushResultValid(result.addr, previous, result);
      previous := WithoutPayload(previous, result.advData);
      previous := [result] + previous;
      if |previous| > MaxMessagesInQueue {
        previous := previous[..|previous| - 1];
      }
      addrToScanResults := addrToScanResults[result.addr := previous];
      notifications := notifications + [NewScanResult(result)];
    }

    /** All stored results that pass the filter, by non-increasing RSSI. */
    method GetScanResultsInternal(filter: Option<ScanResult -> bool>) returns (results: seq<ScanResult>)
      ensures SortedByRssi(results)
      ensures multiset(results) == Matching(addrToScanResults, filter)
    {
      var collected: seq<ScanResult> := [];
      var remaining := addrToScanResults;
      while remaining != map[]
        invariant multiset(collected) + Matching(remaining, filter) == Matching(addrToScanResults, filter)
        decreases |remaining.Keys|
      {
        var addr :| addr in remaining;
        collected := AppendPassing(collected, remaining[addr], filter);
        MatchingAnyAddress(remaining, filter, addr);
        assert (remaining - {addr}).Keys < remaining.Keys;
        remaining := remaining - {addr};
      }
      var sorted := new ScanResult[|collected|](k requires 0 <= k < |collected| => collected[k]);
      assert sorted[..] == collected;
      SortByRssiDescending(sorted);
      results := sorted[..];
    }
  }
}
