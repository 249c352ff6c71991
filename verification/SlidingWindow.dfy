/** The gateway's sliding-window rate limiter (python/vtt_orchestrator/ratelimit.py): a pruned and
    swept table of hit times, proved to give the verdicts of a limiter that never forgets a hit. */
module SlidingWindow {

  datatype Bucket = Auth | Agent | Llm | Media | Narration | Benchmark | SpotlightReport | Default

  datatype Key = Key(identity: string, bucket: Bucket)

  datatype Verdict = Admitted | RetryAfter(seconds: int)

  type Hits = seq<real>
  type Table = map<Key, Hits>

  function Limit(b: Bucket): (n: nat)
    ensures n >= 1
  {
    match b
    case Auth => 30
    case Agent => 60
    case Llm => 30
    case Media => 10
    case Narration => 20
    case Benchmark => 5
    case SpotlightReport => 10
    case Default => 600
  }

  function Window(b: Bucket): (w: real)
    ensures w > 0.0
  {
    60.0
  }

  const STALE_KEY_SWEEP_FACTOR := 2.0

  // ---------------------------------------------------------------- one check

  /** The hits still inside the window. */
  function Live(hits: Hits, now: real, window: real): Hits {
    if hits == [] then []
    else if now - hits[0] < window then [hits[0]] + Live(hits[1..], now, window)
    else Live(hits[1..], now, window)
  }

  /** Conversion to int drops the fraction. */
  function Truncate(x: real): int {
    if x >= 0.0 then x.Floor else -((-x).Floor)
  }

  function Wait(oldest: real, now: real, window: real): int {
    var seconds := Truncate(window - (now - oldest)) + 1;
    if seconds > 1 then seconds else 1
  }

  function Lookup(table: Table, key: Key): Hits {
    if key in table then table[key] else []
  }

  /** Admission on a list of hits: the verdict and the list with a new hit recorded. */
  function Decide(hits: Hits, limit: nat, window: real, now: real): (Verdict, Hits)
    requires limit >= 1
  {
    var live := Live(hits, now, window);
    if |live| >= limit then (RetryAfter(Wait(live[0], now, window)), hits)
    else (Admitted, live + [now])
  }

  function Latest(hits: Hits): real
    requires hits != []
  {
    if |hits| == 1 then hits[0]
    else var rest := Latest(hits[1..]); if hits[0] > rest then hits[0] else rest
  }

  predicate Stale(key: Key, hits: Hits, now: real) {
    hits == [] || now - Latest(hits) > STALE_KEY_SWEEP_FACTOR * Window(key.bucket)
  }

  function Swept(table: Table, now: real): Table {
    map key | key in table && !Stale(key, table[key], now) :: table[key]
  }

  /** What the memory backend's check does to its table. */
  function Checked(table: Table, key: Key, limit: nat, window: real, now: real, maxKeys: nat): (Verdict, Table)
    requires limit >= 1
  {
    var (verdict, hits) := Decide(Lookup(table, key), limit, window, now);
    if verdict != Admitted then (verdict, table)
    else
      var grown := table[key := hits];
      (Admitted, if |grown| > maxKeys then Swept(grown, now) else grown)
  }

  class MemoryWindowBackend {
    var windows: Table
    var maxKeys: nat

    constructor (maxKeys: nat)
      ensures windows == map[] && this.maxKeys == maxKeys
    {
      windows := map[];
      this.maxKeys := maxKeys;
    }

    method Check(key: Key, limit: nat, window: real, now: real) returns (verdict: Verdict)
      requires limit >= 1
      modifies this`windows
      ensures (verdict, windows) == Checked(old(windows), key, limit, window, now, maxKeys)
    {
      var hits: Hits := Prune(Lookup(windows, key), now, window);
      if |hits| >= limit {
        return RetryAfter(Wait(hits[0], now, window));
      }
      hits := hits + [now];
      windows := windows[key := hits];
      if |windows| > maxKeys {
        SweepStaleKeys(now);
      }
      return Admitted;
    }

    method SweepStaleKeys(now: real)
      modifies this`windows
      ensures windows == Swept(old(windows), now)
    {
      var stale := set key | key in windows && Stale(key, windows[key], now);
      var left := stale;
      while left != {}
        invariant left <= stale
        invariant windows == map key | key in old(windows) && (key !in stale || key in left) :: old(windows)[key]
        decreases left
      {
        var key :| key in left;
        windows := map k | k in windows && k != key :: windows[k];
        left := left - {key};
      }
    }
  }

  /** The list comprehension that keeps live hits. */
  method Prune(hits: Hits, now: real, window: real) returns (live: Hits)
    ensures live == Live(hits, now, window)
  {
    live := [];
    var i := 0;
    while i < |hits|
      invariant i <= |hits| && live == Live(hits[..i], now, window)
    {
      LiveAppend(hits[..i], [hits[i]], now, window);
      assert hits[..i + 1] == hits[..i] + [hits[i]];
      if now - hits[i] < window {
        live := live + [hits[i]];
      }
      i := i + 1;
    }
    assert hits[..|hits|] == hits;
  }

  // ---------------------------------------------------------------- pruning is invisible

  lemma {:induction false} LiveAppend(a: Hits, b: Hits, now: real, window: real)
    ensures Live(a + b, now, window) == Live(a, now, window) + Live(b, now, window)
  {
    if a == [] {
      assert a + b == b;
    } else {
      assert (a + b)[1..] == a[1..] + b;
      LiveAppend(a[1..], b, now, window);
    }
  }

  /** What has left the window never comes back while the clock does not run backwards. */
  lemma {:induction false} LiveLater(hits: Hits, now: real, later: real, window: real)
    requires now <= later
    ensures Live(Live(hits, now, window), later, window) == Live(hits, later, window)
    ensures |Live(hits, later, window)| <= |Live(hits, now, window)|
  {
    if hits != [] {
      LiveLater(hits[1..], now, later, window);
    }
  }

  lemma {:induction false} StaleHasNoLive(hits: Hits, now: real, window: real)
    requires hits == [] || now - Latest(hits) >= window
    ensures Live(hits, now, window) == []
  {
    if |hits| > 1 {
      StaleHasNoLive(hits[1..], now, window);
    }
  }

  // ---------------------------------------------------------------- the specification: nothing forgotten

  datatype Event = Check(key: Key, now: real, maxKeys: nat) | Sweep(now: real)

  /** A request as the middleware makes it: limit and window belong to the bucket. */
  function Step(table: Table, e: Event): (seq<Verdict>, Table) {
    match e
    case Check(key, now, maxKeys) =>
      var (verdict, t) := Checked(table, key, Limit(key.bucket), Window(key.bucket), now, maxKeys);
      ([verdict], t)
    case Sweep(now) => ([], Swept(table, now))
  }

  function Run(table: Table, events: seq<Event>): seq<Verdict>
    decreases events
  {
    if events == [] then []
    else var (v, t) := Step(table, events[0]); v + Run(t, events[1..])
  }

  /** The verdict computed from every hit ever admitted for the key. */
  ghost function FullVerdict(history: Table, key: Key, now: real): Verdict {
    Decide(Lookup(history, key), Limit(key.bucket), Window(key.bucket), now).0
  }

  ghost function Recorded(history: Table, key: Key, now: real): Table {
    if FullVerdict(history, key, now) == Admitted then history[key := Lookup(history, key) + [now]] else history
  }

  ghost function FullStep(history: Table, e: Event): (seq<Verdict>, Table) {
    match e
    case Check(key, now, _) => ([FullVerdict(history, key, now)], Recorded(history, key, now))
    case Sweep(_) => ([], history)
  }

  ghost function FullRun(history: Table, events: seq<Event>): seq<Verdict>
    decreases events
  {
    if events == [] then []
    else var (v, h) := FullStep(history, events[0]); v + FullRun(h, events[1..])
  }

  ghost function HistoryAfter(history: Table, events: seq<Event>): Table
    decreases events
  {
    if events == [] then history else HistoryAfter(FullStep(history, events[0]).1, events[1..])
  }

  ghost predicate Nondecreasing(clock: real, events: seq<Event>)
    decreases events
  {
    events == [] || (clock <= events[0].now && Nondecreasing(events[0].now, events[1..]))
  }

  /** From `clock` on the two lists show the same live hits. */
  ghost predicate SameLive(a: Hits, b: Hits, clock: real, window: real) {
    forall t :: clock <= t ==> Live(a, t, window) == Live(b, t, window)
  }

  ghost predicate Agree(table: Table, history: Table, clock: real) {
    forall key :: SameLive(Lookup(table, key), Lookup(history, key), clock, Window(key.bucket))
  }

  lemma AdmitAgrees(a: Hits, b: Hits, clock: real, now: real, window: real)
    requires SameLive(a, b, clock, window) && clock <= now
    ensures SameLive(Live(a, now, window) + [now], b + [now], now, window)
  {
    forall t | now <= t
      ensures Live(Live(a, now, window) + [now], t, window) == Live(b + [now], t, window)
    {
      LiveAppend(Live(a, now, window), [now], t, window);
      LiveAppend(b, [now], t, window);
      LiveLater(a, now, t, window);
    }
  }

  lemma SweepAgrees(table: Table, history: Table, clock: real, now: real)
    requires Agree(table, history, clock) && clock <= now
    ensures Agree(Swept(table, now), history, now)
  {
    forall key
      ensures SameLive(Lookup(Swept(table, now), key), Lookup(history, key), now, Window(key.bucket))
    {
      var w := Window(key.bucket);
      assert SameLive(Lookup(table, key), Lookup(history, key), clock, w);
      if key in table && Stale(key, table[key], now) {
        forall t | now <= t ensures Live(table[key], t, w) == [] {
          StaleHasNoLive(table[key], t, w);
        }
      }
    }
  }

  lemma CheckAgrees(table: Table, history: Table, clock: real, key: Key, now: real, maxKeys: nat)
    requires Agree(table, history, clock) && clock <= now
    ensures var (verdict, t) := Checked(table, key, Limit(key.bucket), Window(key.bucket), now, maxKeys);
            verdict == FullVerdict(history, key, now) && Agree(t, Recorded(history, key, now), now)
  {
    var w := Window(key.bucket);
    assert SameLive(Lookup(table, key), Lookup(history, key), clock, w);
    if FullVerdict(history, key, now) == Admitted {
      var grown := table[key := Live(Lookup(table, key), now, w) + [now]];
      AdmitAgrees(Lookup(table, key), Lookup(history, key), clock, now, w);
      forall k ensures SameLive(Lookup(grown, k), Lookup(Recorded(history, key, now), k), now, Window(k.bucket)) {
        assert SameLive(Lookup(table, k), Lookup(history, k), clock, Window(k.bucket));
      }
      SweepAgrees(grown, Recorded(history, key, now), now, now);
    } else {
      forall k ensures SameLive(Lookup(table, k), Lookup(history, k), now, Window(k.bucket)) {
        assert SameLive(Lookup(table, k), Lookup(history, k), clock, Window(k.bucket));
      }
    }
  }

  /** For every run over any keys with a clock that does not run backwards, whenever sweeps happen
      and whatever the key cap is, every verdict is the one the full history gives. */
  lemma {:induction false} PruningIsInvisible(table: Table, history: Table, clock: real, events: seq<Event>)
    requires Agree(table, history, clock) && Nondecreasing(clock, events)
    ensures Run(table, events) == FullRun(history, events)
    decreases |events|
  {
    if events != [] {
      var e := events[0];
      match e {
        case Check(key, now, maxKeys) => CheckAgrees(table, history, clock, key, now, maxKeys);
        case Sweep(now) => SweepAgrees(table, history, clock, now);
      }
      PruningIsInvisible(Step(table, e).1, FullStep(history, e).1, e.now, events[1..]);
    }
  }

  /** In particular from an empty table. */
  lemma LimiterRefinesHistory(events: seq<Event>)
    requires events != [] ==> Nondecreasing(events[0].now, events)
    ensures Run(map[], events) == FullRun(map[], events)
  {
    if events != [] {
      PruningIsInvisible(map[], map[], events[0].now, events);
    }
  }

  // ---------------------------------------------------------------- what the verdicts guarantee

  /** Hits in the half-open interval of window length that ends at `end`. */
  ghost function InWindow(hits: Hits, end: real, window: real): nat {
    if hits == [] then 0
    else (if end - window < hits[0] <= end then 1 else 0) + InWindow(hits[1..], end, window)
  }

  /** No interval of window length holds more than `limit` hits. */
  ghost predicate WindowSafe(hits: Hits, limit: nat, window: real) {
    forall end :: InWindow(hits, end, window) <= limit
  }

  ghost predicate Chronological(hits: Hits, clock: real) {
    hits == [] || (hits[0] <= clock && (forall i :: 0 < i < |hits| ==> hits[0] <= hits[i]) &&
                   Chronological(hits[1..], clock))
  }

  lemma {:induction false} InWindowAppend(a: Hits, b: Hits, end: real, window: real)
    ensures InWindow(a + b, end, window) == InWindow(a, end, window) + InWindow(b, end, window)
  {
    if a == [] {
      assert a + b == b;
    } else {
      assert (a + b)[1..] == a[1..] + b;
      InWindowAppend(a[1..], b, end, window);
    }
  }

  lemma {:induction false} ChronologicalAppend(hits: Hits, clock: real, now: real)
    requires Chronological(hits, clock) && clock <= now
    ensures Chronological(hits, now) && Chronological(hits + [now], now)
  {
    if hits == [] {
      assert (hits + [now])[1..] == [];
    } else {
      ChronologicalAppend(hits[1..], clock, now);
      assert (hits + [now])[1..] == hits[1..] + [now];
    }
  }

  /** Every hit in a window that ends now or later is live now. */
  lemma {:induction false} WindowIsLive(hits: Hits, clock: real, now: real, end: real, window: real)
    requires Chronological(hits, clock) && clock <= now
    ensures now <= end ==> InWindow(hits, end, window) <= |Live(hits, now, window)|
    ensures |Live(hits, now, window)| == InWindow(hits, now, window)
  {
    if hits != [] {
      WindowIsLive(hits[1..], clock, now, end, window);
    }
  }

  lemma AdmitIsSafe(hits: Hits, clock: real, now: real, limit: nat, window: real)
    requires Chronological(hits, clock) && clock <= now && WindowSafe(hits, limit, window)
    requires |Live(hits, now, window)| < limit && window > 0.0
    ensures WindowSafe(hits + [now], limit, window)
  {
    forall end ensures InWindow(hits + [now], end, window) <= limit {
      InWindowAppend(hits, [now], end, window);
      if now <= end {
        WindowIsLive(hits, clock, now, end, window);
      }
    }
  }

  ghost predicate HistorySafe(history: Table, clock: real) {
    forall key :: Chronological(Lookup(history, key), clock) &&
        WindowSafe(Lookup(history, key), Limit(key.bucket), Window(key.bucket))
  }

  lemma StepIsSafe(history: Table, clock: real, e: Event)
    requires HistorySafe(history, clock) && clock <= e.now
    ensures HistorySafe(FullStep(history, e).1, e.now)
  {
    var after := FullStep(history, e).1;
    forall key
      ensures Chronological(Lookup(after, key), e.now) &&
              WindowSafe(Lookup(after, key), Limit(key.bucket), Window(key.bucket))
    {
      var hits := Lookup(history, key);
      assert WindowSafe(hits, Limit(key.bucket), Window(key.bucket));
      ChronologicalAppend(hits, clock, e.now);
      if after != history && key == e.key {
        AdmitIsSafe(hits, clock, e.now, Limit(key.bucket), Window(key.bucket));
      }
    }
  }

  /** Sliding-window safety: after any run no window-length interval holds more admitted hits of a
      key than its limit. Refused attempts consume nothing: only admitted ones enter the history. */
  lemma {:induction false} NeverOverLimit(history: Table, clock: real, events: seq<Event>)
    requires HistorySafe(history, clock) && Nondecreasing(clock, events)
    ensures forall key, end ::
              InWindow(Lookup(HistoryAfter(history, events), key), end, Window(key.bucket)) <= Limit(key.bucket)
    decreases |events|
  {
    if events == [] {
      forall key, end ensures InWindow(Lookup(history, key), end, Window(key.bucket)) <= Limit(key.bucket) {
        assert WindowSafe(Lookup(history, key), Limit(key.bucket), Window(key.bucket));
      }
    } else {
      StepIsSafe(history, clock, events[0]);
      NeverOverLimit(FullStep(history, events[0]).1, events[0].now, events[1..]);
    }
  }

  // ---------------------------------------------------------------- what the pruned table admits

  /** When the limiter with the pruned and swept table admitted a key during a run. */
  ghost function AdmittedTimes(table: Table, events: seq<Event>, key: Key): Hits
    decreases events
  {
    if events == [] then []
    else if events[0].Check? && events[0].key == key && Step(table, events[0]).0 == [Admitted] then
      [events[0].now] + AdmittedTimes(Step(table, events[0]).1, events[1..], key)
    else AdmittedTimes(Step(table, events[0]).1, events[1..], key)
  }

  lemma StepAdmits(table: Table, history: Table, clock: real, e: Event, key: Key)
    requires Agree(table, history, clock) && clock <= e.now
    ensures Agree(Step(table, e).1, FullStep(history, e).1, e.now)
    ensures Lookup(FullStep(history, e).1, key) ==
            if e.Check? && e.key == key && Step(table, e).0 == [Admitted] then Lookup(history, key) + [e.now]
            else Lookup(history, key)
  {
    match e
    case Check(k, now, maxKeys) => CheckAgrees(table, history, clock, k, now, maxKeys);
    case Sweep(now) => SweepAgrees(table, history, clock, now);
  }

  lemma Regroup(a: Hits, x: real, b: Hits)
    ensures (a + [x]) + b == a + ([x] + b)
  {
  }

  lemma {:induction false} AdmittedIsHistory(table: Table, history: Table, clock: real, events: seq<Event>, key: Key)
    requires Agree(table, history, clock) && Nondecreasing(clock, events)
    ensures Lookup(HistoryAfter(history, events), key) == Lookup(history, key) + AdmittedTimes(table, events, key)
    decreases |events|
  {
    if events != [] {
      var e := events[0];
      var later := AdmittedTimes(Step(table, e).1, events[1..], key);
      StepAdmits(table, history, clock, e, key);
      AdmittedIsHistory(Step(table, e).1, FullStep(history, e).1, e.now, events[1..], key);
      Regroup(Lookup(history, key), e.now, later);
    }
  }

  /** The limiter as it runs, with pruning and sweeps, never admits more hits of a key within any interval
      of window length than the key's limit. */
  lemma PrunedNeverOverLimit(events: seq<Event>, key: Key, end: real)
    requires events != [] ==> Nondecreasing(events[0].now, events)
    ensures InWindow(AdmittedTimes(map[], events, key), end, Window(key.bucket)) <= Limit(key.bucket)
  {
    if events != [] {
      AdmittedIsHistory(map[], map[], events[0].now, events, key);
      NeverOverLimit(map[], events[0].now, events);
      assert Lookup(HistoryAfter(map[], events), key) == AdmittedTimes(map[], events, key);
    }
  }

  // ---------------------------------------------------------------- the key cap

  /** The table with one more hit admitted, before any sweep. */
  ghost function Grown(table: Table, key: Key, now: real): Table {
    table[key := Live(Lookup(table, key), now, Window(key.bucket)) + [now]]
  }

  ghost function FreshKeys(table: Table, now: real): set<Key> {
    set key | key in table && !Stale(key, table[key], now)
  }

  lemma SubsetSize<T>(a: set<T>, b: set<T>)
    requires a <= b
    ensures |a| <= |b|
  {
    assert a + (b - a) == b;
  }

  /** After an admitted check the table is within the cap if and only if the grown table has no more than
      that many keys that are not stale. */
  lemma CapHoldsExactlyWhen(table: Table, key: Key, now: real, maxKeys: nat)
    requires Checked(table, key, Limit(key.bucket), Window(key.bucket), now, maxKeys).0 == Admitted
    ensures |Checked(table, key, Limit(key.bucket), Window(key.bucket), now, maxKeys).1| <= maxKeys <==>
            |FreshKeys(Grown(table, key, now), now)| <= maxKeys
  {
    var grown := Grown(table, key, now);
    assert Swept(grown, now).Keys == FreshKeys(grown, now);
    SubsetSize(FreshKeys(grown, now), grown.Keys);
  }

  ghost function TableAfter(table: Table, events: seq<Event>): Table
    decreases events
  {
    if events == [] then table else TableAfter(Step(table, events[0]).1, events[1..])
  }

  /** One request of each identity, all at one time. */
  ghost function OneEach(identities: seq<string>, now: real, maxKeys: nat): seq<Event> {
    if identities == [] then []
    else [Check(Key(identities[0], Default), now, maxKeys)] + OneEach(identities[1..], now, maxKeys)
  }

  ghost predicate Distinct(identities: seq<string>) {
    identities == [] || (identities[0] !in identities[1..] && Distinct(identities[1..]))
  }

  lemma NobodyIsStale(table: Table, now: real)
    requires forall key :: key in table ==> table[key] == [now]
    ensures Swept(table, now) == table
  {
    assert Swept(table, now).Keys == table.Keys;
  }

  lemma NewKeyStays(table: Table, key: Key, now: real, maxKeys: nat)
    requires key !in table && forall k :: k in table ==> table[k] == [now]
    ensures Step(table, Check(key, now, maxKeys)).1 == table[key := [now]]
    ensures |table[key := [now]]| == |table| + 1
  {
    NobodyIsStale(table[key := [now]], now);
    assert Live(Lookup(table, key), now, Window(key.bucket)) + [now] == [now];
    assert table[key := [now]].Keys == table.Keys + {key};
  }

  lemma {:induction false} EachIdentityStays(table: Table, identities: seq<string>, now: real, maxKeys: nat)
    requires Distinct(identities) && forall id :: id in identities ==> Key(id, Default) !in table
    requires forall key :: key in table ==> table[key] == [now]
    ensures |TableAfter(table, OneEach(identities, now, maxKeys))| == |table| + |identities|
    decreases identities
  {
    if identities != [] {
      NewKeyStays(table, Key(identities[0], Default), now, maxKeys);
      assert forall id :: id in identities[1..] ==> id in identities;
      EachIdentityStays(table[Key(identities[0], Default) := [now]], identities[1..], now, maxKeys);
      assert OneEach(identities, now, maxKeys)[1..] == OneEach(identities[1..], now, maxKeys);
    }
  }

  /** Whatever the cap, n identities asking at one time leave n keys. */
  lemma CapDoesNotBound(identities: seq<string>, now: real, maxKeys: nat)
    requires Distinct(identities)
    ensures |TableAfter(map[], OneEach(identities, now, maxKeys))| == |identities|
  {
    EachIdentityStays(map[], identities, now, maxKeys);
  }

  // ---------------------------------------------------------------- Retry-After

  lemma {:induction false} LiveOldest(hits: Hits, clock: real, now: real, window: real)
    requires Chronological(hits, clock) && Live(hits, now, window) != []
    ensures forall later :: now <= later && later - Live(hits, now, window)[0] < window ==>
                              Live(hits, later, window) == Live(hits, now, window)
    ensures forall later :: now <= later && later - Live(hits, now, window)[0] >= window ==>
                              |Live(hits, later, window)| < |Live(hits, now, window)|
  {
    if now - hits[0] < window {
      forall later | now <= later
        ensures later - hits[0] < window ==> Live(hits, later, window) == Live(hits, now, window)
        ensures later - hits[0] >= window ==> |Live(hits, later, window)| < |Live(hits, now, window)|
      {
        LiveLater(hits[1..], now, later, window);
        if later - hits[0] < window {
          AllLive(hits, later, window, hits[0]);
          AllLive(hits, now, window, hits[0]);
        }
      }
    } else {
      LiveOldest(hits[1..], clock, now, window);
    }
  }

  lemma {:induction false} AllLive(hits: Hits, now: real, window: real, oldest: real)
    requires now - oldest < window && forall i :: 0 <= i < |hits| ==> oldest <= hits[i]
    ensures Live(hits, now, window) == hits
  {
    if hits != [] {
      AllLive(hits[1..], now, window, oldest);
    }
  }

  /** On the full history: a caller refused with r seconds is admitted from r seconds later on if no hit
      of its key was admitted meanwhile; any caller earlier than r - 1 seconds from now is refused; and the wait
      r - 1 already suffices exactly when the oldest live hit leaves the window on a whole second. */
  lemma RetryAfterIsHonest(history: Table, clock: real, key: Key, now: real)
    requires HistorySafe(history, clock) && clock <= now
    requires FullVerdict(history, key, now) != Admitted
    ensures var r := FullVerdict(history, key, now).seconds;
            var oldest := Live(Lookup(history, key), now, Window(key.bucket))[0];
            var left := Window(key.bucket) - (now - oldest);
            && r >= 1
            && (forall later :: later >= now + r as real ==> FullVerdict(history, key, later) == Admitted)
            && (forall later :: now <= later < now + (r - 1) as real ==> FullVerdict(history, key, later) != Admitted)
            && (FullVerdict(history, key, now + (r - 1) as real) == Admitted <==> left == (r - 1) as real)
  {
    var w, hits := Window(key.bucket), Lookup(history, key);
    var live := Live(hits, now, w);
    assert Chronological(hits, clock) && WindowSafe(hits, Limit(key.bucket), w);
    WindowIsLive(hits, clock, now, now, w);
    LiveOldest(hits, clock, now, w);
    LiveFirst(hits, now, w);
  }

  lemma {:induction false} LiveFirst(hits: Hits, now: real, window: real)
    requires Live(hits, now, window) != []
    ensures now - Live(hits, now, window)[0] < window
  {
    if now - hits[0] >= window {
      LiveFirst(hits[1..], now, window);
    }
  }

  /** The time of the last event. */
  ghost function ClockAfter(clock: real, events: seq<Event>): real
    decreases events
  {
    if events == [] then clock else ClockAfter(events[0].now, events[1..])
  }

  lemma {:induction false} RunAgrees(table: Table, history: Table, clock: real, events: seq<Event>)
    requires Agree(table, history, clock) && HistorySafe(history, clock) && Nondecreasing(clock, events)
    ensures Agree(TableAfter(table, events), HistoryAfter(history, events), ClockAfter(clock, events))
    ensures HistorySafe(HistoryAfter(history, events), ClockAfter(clock, events))
    ensures clock <= ClockAfter(clock, events)
    decreases |events|
  {
    if events != [] {
      StepAdmits(table, history, clock, events[0], Key("", Default));
      StepIsSafe(history, clock, events[0]);
      RunAgrees(Step(table, events[0]).1, FullStep(history, events[0]).1, events[0].now, events[1..]);
    }
  }

  /** The verdict depends on nothing but the key's own hits. */
  lemma SameHitsSameVerdict(history: Table, after: Table, key: Key, now: real)
    requires Lookup(after, key) == Lookup(history, key)
    ensures FullVerdict(after, key, now) == FullVerdict(history, key, now)
  {
  }

  /** A refusal changes no history. */
  lemma RefusalAgrees(table: Table, history: Table, clock: real, key: Key, now: real, maxKeys: nat)
    requires Agree(table, history, clock) && HistorySafe(history, clock) && clock <= now
    requires Step(table, Check(key, now, maxKeys)).0 != [Admitted]
    ensures Step(table, Check(key, now, maxKeys)).0 == [FullVerdict(history, key, now)]
    ensures Agree(Step(table, Check(key, now, maxKeys)).1, history, now) && HistorySafe(history, now)
    ensures Live(Lookup(table, key), now, Window(key.bucket)) ==
            Live(Lookup(history, key), now, Window(key.bucket)) != []
  {
    hide HistorySafe;
    assert SameLive(Lookup(table, key), Lookup(history, key), clock, Window(key.bucket));
    CheckAgrees(table, history, clock, key, now, maxKeys);
    StepIsSafe(history, clock, Check(key, now, maxKeys));
  }

  /** With no hit admitted in between the check depends on the same hits. */
  lemma AskedLater(table: Table, history: Table, clock: real, between: seq<Event>, key: Key, later: real, maxKeys: nat)
    requires Agree(table, history, clock) && HistorySafe(history, clock) && Nondecreasing(clock, between)
    requires ClockAfter(clock, between) <= later && AdmittedTimes(table, between, key) == []
    ensures clock <= later && Step(TableAfter(table, between), Check(key, later, maxKeys)).0 ==
            [FullVerdict(history, key, later)]
  {
    hide Agree, HistorySafe, FullVerdict, TableAfter, HistoryAfter, AdmittedTimes;
    RunAgrees(table, history, clock, between);
    AdmittedIsHistory(table, history, clock, between, key);
    SameHitsSameVerdict(history, HistoryAfter(history, between), key, later);
    CheckAgrees(TableAfter(table, between), HistoryAfter(history, between), ClockAfter(clock, between), key, later,
                maxKeys);
  }

  lemma StartAgrees(clock: real)
    ensures Agree(map[], map[], clock) && HistorySafe(map[], clock)
  {
  }

  /** An honest Retry-After of the limiter as it runs: let a check be refused with r seconds, whatever went
      before, and let no hit of its key be admitted until a later check. Then that check is admitted if it is at
      least r seconds later and refused if it is less than r - 1 seconds later; exactly r - 1 seconds later it is
      admitted if and only if the oldest live hit leaves the window at that moment. */
  lemma RefusedIsAdmittedLater(clock: real, before: seq<Event>, key: Key, now: real, maxKeys: nat,
                               between: seq<Event>, later: real)
    requires Nondecreasing(clock, before) && ClockAfter(clock, before) <= now
    requires Nondecreasing(now, between) && ClockAfter(now, between) <= later
    requires var (verdict, table) := Step(TableAfter(map[], before), Check(key, now, maxKeys));
             verdict != [Admitted] && AdmittedTimes(table, between, key) == []
    ensures var (verdict, table) := Step(TableAfter(map[], before), Check(key, now, maxKeys));
            var again := Step(TableAfter(table, between), Check(key, later, maxKeys)).0;
            && verdict[0].RetryAfter? && verdict[0].seconds >= 1
            && (later >= now + verdict[0].seconds as real ==> again == [Admitted])
            && (later < now + (verdict[0].seconds - 1) as real ==> again != [Admitted])
            && var live := Live(Lookup(TableAfter(map[], before), key), now, Window(key.bucket));
               live != [] &&
               (later == now + (verdict[0].seconds - 1) as real ==>
                  (again == [Admitted] <==> live[0] + Window(key.bucket) == later))
  {
    hide Agree, HistorySafe, FullVerdict, TableAfter, HistoryAfter, AdmittedTimes, Step, Live;
    var history := HistoryAfter(map[], before);
    var first := TableAfter(map[], before);
    StartAgrees(clock);
    RunAgrees(map[], map[], clock, before);
    RefusalAgrees(first, history, ClockAfter(clock, before), key, now, maxKeys);
    RetryAfterIsHonest(history, ClockAfter(clock, before), key, now);
    var table := Step(first, Check(key, now, maxKeys)).1;
    AskedLater(table, history, now, between, key, later, maxKeys);
    assert Step(TableAfter(table, between), Check(key, later, maxKeys)).0[0] == FullVerdict(history, key, later);
  }
}
