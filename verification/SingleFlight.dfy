/** The single-flight ambience loader (python/vtt_orchestrator/server.py): requests for one
    soundscape share one upstream generation, a cancelled leader hands it to an adopter, and
    results land in a small LRU cache. Every await of the source is a step boundary here, so any
    interleaving of requests, completions, cancellations and resets is a sequence of moves. */
module SingleFlight {
  import opened Text

  type Slot = string
  type Wav = seq<bv8>

  const CACHE_MAX_ENTRIES := 12
  const MAX_SFX_BYTES := 20 * 1024 * 1024

  datatype Failure = Upstream(code: int) | OverCap | Abandoned
  datatype Outcome = Sound(wav: Wav) | Fails(error: Failure)

  /** The upstream call, run as a task of its own. */
  datatype Task = Running | Landed(outcome: Outcome) | TaskCancelled

  /** Who will resolve the shared future: the suspended leader, the detached callback, or nobody any more. */
  datatype Phase = Leading | Adopted | Finished

  datatype Run = Run(key: Slot, epoch: nat, phase: Phase, task: Task, future: Option<Outcome>)

  datatype Reply = Got(outcome: Outcome) | OwnCancellation

  /** A request that joined run `run`. */
  datatype Waiter = Waiter(run: nat, reply: Option<Reply>)

  datatype Entry = Entry(key: Slot, wav: Wav)

  /** `cache` is in use order, least recently used first. `epoch` counts resets and `uses` logs the
      stores and hits since the last one; neither exists in the source, they serve the statements. */
  datatype State = State(cache: seq<Entry>, inflight: map<Slot, nat>, runs: seq<Run>, waiters: seq<Waiter>,
                         epoch: nat, uses: seq<Entry>)

  const Initial := State([], map[], [], [], 0, [])

  datatype Move =
    | Request(key: Slot)
    | Land(id: nat, outcome: Outcome)
    | CancelTask(id: nat)
    | Resume(id: nat)
    | CancelLeader(id: nat)
    | Adopt(id: nat)
    | Deliver(w: nat)
    | CancelWaiter(w: nat)
    | Reset

  // ---------------------------------------------------------------- the cache

  function Without(entries: seq<Entry>, key: Slot): seq<Entry> {
    if entries == [] then []
    else if entries[0].key == key then Without(entries[1..], key)
    else [entries[0]] + Without(entries[1..], key)
  }

  function Find(entries: seq<Entry>, key: Slot): Option<Wav> {
    if entries == [] then None
    else if entries[0].key == key then Some(entries[0].wav)
    else Find(entries[1..], key)
  }

  /** The `n` entries at the recently used end. */
  function Newest(entries: seq<Entry>, n: nat): seq<Entry> {
    if |entries| <= n then entries else entries[|entries| - n..]
  }

  /** Moves a key to the recently used end with the given payload. */
  function Touch(entries: seq<Entry>, e: Entry): seq<Entry> {
    Without(entries, e.key) + [e]
  }

  /** Every key used so far with its last payload, in order of last use. */
  function LastUses(uses: seq<Entry>): seq<Entry> {
    if uses == [] then [] else Touch(LastUses(uses[..|uses| - 1]), uses[|uses| - 1])
  }

  // ---------------------------------------------------------------- moves

  /** What a finished task turns into once the payload cap is checked. */
  function Verdict(task: Task): Outcome
    requires !task.Running?
  {
    match task
    case TaskCancelled => Fails(Abandoned)
    case Landed(Sound(wav)) => if |wav| > MAX_SFX_BYTES then Fails(OverCap) else Sound(wav)
    case Landed(Fails(e)) => Fails(e)
  }

  function Stored(s: State, key: Slot, outcome: Outcome): State {
    if outcome.Sound? then
      s.(cache := Newest(Touch(s.cache, Entry(key, outcome.wav)), CACHE_MAX_ENTRIES),
         uses := s.uses + [Entry(key, outcome.wav)])
    else s
  }

  function SlotFreed(inflight: map<Slot, nat>, key: Slot, id: nat): map<Slot, nat> {
    if key in inflight && inflight[key] == id then map k | k in inflight && k != key :: inflight[k] else inflight
  }

  /** Cap check, cache insert, resolution of the future and release of the slot, if it is still ours. */
  function Settled(s: State, id: nat): State
    requires id < |s.runs| && !s.runs[id].task.Running?
  {
    var run := s.runs[id];
    var outcome := Verdict(run.task);
    Stored(s, run.key, outcome).(runs := s.runs[id := run.(phase := Finished, future := Some(outcome))],
                                 inflight := SlotFreed(s.inflight, run.key, id))
  }

  predicate Enabled(s: State, m: Move) {
    match m
    case Request(_) => true
    case Land(id, outcome) => id < |s.runs| && s.runs[id].task.Running? && (outcome.Fails? ==> outcome.error.Upstream?)
    case CancelTask(id) => id < |s.runs| && s.runs[id].task.Running?
    case Resume(id) => id < |s.runs| && s.runs[id].phase.Leading? && s.runs[id].task.Landed?
    case CancelLeader(id) => id < |s.runs| && s.runs[id].phase.Leading?
    case Adopt(id) => id < |s.runs| && s.runs[id].phase.Adopted? && !s.runs[id].task.Running?
    case Deliver(w) =>
      w < |s.waiters| && s.waiters[w].reply.None? && s.waiters[w].run < |s.runs| &&
          s.runs[s.waiters[w].run].future.Some?
    case CancelWaiter(w) => w < |s.waiters| && s.waiters[w].reply.None?
    case Reset => true
  }

  function Next(s: State, m: Move): State
    requires Enabled(s, m)
  {
    match m
    case Request(key) =>
      (match Find(s.cache, key)
       case Some(wav) => s.(cache := Touch(s.cache, Entry(key, wav)), uses := s.uses + [Entry(key, wav)])
       case None =>
         if key in s.inflight then s.(waiters := s.waiters + [Waiter(s.inflight[key], None)])
         else s.(runs := s.runs + [Run(key, s.epoch, Leading, Running, None)], inflight := s.inflight[key := |s.runs|]))
    case Land(id, outcome) => s.(runs := s.runs[id := s.runs[id].(task := Landed(outcome))])
    case CancelTask(id) => s.(runs := s.runs[id := s.runs[id].(task := TaskCancelled)])
    case Resume(id) => Settled(s, id)
    case CancelLeader(id) => s.(runs := s.runs[id := s.runs[id].(phase := Adopted)])
    case Adopt(id) => Settled(s, id)
    case Deliver(w) =>
      s.(waiters := s.waiters[w := s.waiters[w].(reply := Some(Got(s.runs[s.waiters[w].run].future.value)))])
    case CancelWaiter(w) => s.(waiters := s.waiters[w := s.waiters[w].(reply := Some(OwnCancellation))])
    case Reset => s.(cache := [], inflight := map[], epoch := s.epoch + 1, uses := [])
  }

  predicate Legal(s: State, moves: seq<Move>)
    decreases moves
  {
    moves == [] || (Enabled(s, moves[0]) && Legal(Next(s, moves[0]), moves[1..]))
  }

  function After(s: State, moves: seq<Move>): State
    requires Legal(s, moves)
    decreases moves
  {
    if moves == [] then s else After(Next(s, moves[0]), moves[1..])
  }

  // ---------------------------------------------------------------- the invariant

  /** An unresolved future has exactly one resolver in waiting; a resolved one was resolved by its
      own generation's outcome. */
  ghost predicate RunOk(run: Run, epoch: nat) {
    && run.epoch <= epoch
    && (run.phase.Finished? <==> run.future.Some?)
    && (run.future.Some? ==> !run.task.Running? && run.future.value == Verdict(run.task))
    && (run.task.Landed? && run.task.outcome.Fails? ==> run.task.outcome.error.Upstream?)
  }

  ghost predicate RunsOk(s: State) {
    forall id :: 0 <= id < |s.runs| ==> RunOk(s.runs[id], s.epoch)
  }

  /** The slot table is exactly the unresolved runs started since the last reset. */
  ghost predicate SlotsOk(s: State) {
    && (forall key :: key in s.inflight ==>
          s.inflight[key] < |s.runs| && s.runs[s.inflight[key]].key == key &&
          s.runs[s.inflight[key]].future.None? && s.runs[s.inflight[key]].epoch == s.epoch)
    && (forall id :: 0 <= id < |s.runs| && s.runs[id].future.None? && s.runs[id].epoch == s.epoch ==>
          s.runs[id].key in s.inflight && s.inflight[s.runs[id].key] == id)
  }

  /** A waiter that got an outcome got the one its run was resolved with. */
  ghost predicate WaitersOk(s: State) {
    forall w :: 0 <= w < |s.waiters| ==>
      && s.waiters[w].run < |s.runs|
      && (s.waiters[w].reply.Some? && s.waiters[w].reply.value.Got? ==>
            s.runs[s.waiters[w].run].future == Some(s.waiters[w].reply.value.outcome))
  }

  ghost predicate Produced(runs: seq<Run>, e: Entry) {
    exists id :: 0 <= id < |runs| && runs[id].key == e.key && runs[id].future == Some(Sound(e.wav))
  }

  /** Everything used was produced by a run that succeeded under the cap. */
  ghost predicate UsesOk(s: State) {
    forall i :: 0 <= i < |s.uses| ==> |s.uses[i].wav| <= MAX_SFX_BYTES && Produced(s.runs, s.uses[i])
  }

  /** The cache holds the most recently used results, and nothing else. */
  ghost predicate CacheOk(s: State) {
    s.cache == Newest(LastUses(s.uses), CACHE_MAX_ENTRIES)
  }

  ghost predicate Inv(s: State) {
    RunsOk(s) && SlotsOk(s) && WaitersOk(s) && UsesOk(s) && CacheOk(s)
  }

  // ---------------------------------------------------------------- LRU

  ghost predicate DistinctKeys(entries: seq<Entry>) {
    entries == [] || (Absent(entries[1..], entries[0].key) && DistinctKeys(entries[1..]))
  }

  ghost predicate Absent(entries: seq<Entry>, key: Slot) {
    entries == [] || (entries[0].key != key && Absent(entries[1..], key))
  }

  lemma {:induction false} WithoutAbsent(entries: seq<Entry>, key: Slot)
    ensures Absent(Without(entries, key), key)
    ensures Absent(entries, key) ==> Without(entries, key) == entries
    ensures forall k :: Absent(entries, k) ==> Absent(Without(entries, key), k)
  {
    if entries != [] { WithoutAbsent(entries[1..], key); }
  }

  lemma {:induction false} WithoutDistinct(entries: seq<Entry>, key: Slot)
    requires DistinctKeys(entries)
    ensures DistinctKeys(Without(entries, key)) && |Without(entries, key)| >= |entries| - 1
  {
    if entries != [] {
      WithoutDistinct(entries[1..], key);
      WithoutAbsent(entries[1..], key);
    }
  }

  lemma {:induction false} WithoutAppend(a: seq<Entry>, b: seq<Entry>, key: Slot)
    ensures Without(a + b, key) == Without(a, key) + Without(b, key)
  {
    if a == [] {
      assert a + b == b;
    } else {
      assert (a + b)[1..] == a[1..] + b;
      WithoutAppend(a[1..], b, key);
    }
  }

  lemma {:induction false} AppendDistinct(entries: seq<Entry>, e: Entry)
    requires DistinctKeys(entries) && Absent(entries, e.key)
    ensures DistinctKeys(entries + [e])
  {
    if entries == [] {
      assert entries + [e] == [e] && [e][1..] == [];
    } else {
      assert (entries + [e])[1..] == entries[1..] + [e];
      AppendDistinct(entries[1..], e);
      AppendAbsent(entries[1..], e, entries[0].key);
    }
  }

  lemma {:induction false} AppendAbsent(entries: seq<Entry>, e: Entry, key: Slot)
    requires Absent(entries, key) && e.key != key
    ensures Absent(entries + [e], key)
  {
    if entries == [] {
      assert entries + [e] == [e] && [e][1..] == [];
    } else {
      assert (entries + [e])[1..] == entries[1..] + [e];
      AppendAbsent(entries[1..], e, key);
    }
  }

  lemma {:induction false} LastUsesDistinct(uses: seq<Entry>)
    ensures DistinctKeys(LastUses(uses))
  {
    if uses != [] {
      var last := uses[|uses| - 1];
      LastUsesDistinct(uses[..|uses| - 1]);
      WithoutDistinct(LastUses(uses[..|uses| - 1]), last.key);
      WithoutAbsent(LastUses(uses[..|uses| - 1]), last.key);
      AppendDistinct(Without(LastUses(uses[..|uses| - 1]), last.key), last);
    }
  }

  lemma {:induction false} DistinctSuffix(a: seq<Entry>, b: seq<Entry>)
    requires DistinctKeys(a + b)
    ensures DistinctKeys(b)
  {
    if a == [] {
      assert a + b == b;
    } else {
      assert (a + b)[1..] == a[1..] + b;
      DistinctSuffix(a[1..], b);
    }
  }

  /** Touching a key in the bounded cache and in the unbounded record of uses agree: the entries an
      LRU of this size forgets are the ones it would evict anyway. */
  lemma TouchNewest(all: seq<Entry>, e: Entry, n: nat)
    requires DistinctKeys(all) && n > 0
    ensures Newest(Touch(all, e), n) == Newest(Touch(Newest(all, n), e), n)
  {
    if |all| > n {
      var early, recent := all[..|all| - n], all[|all| - n..];
      assert all == early + recent;
      WithoutAppend(early, recent, e.key);
      DistinctSuffix(early, recent);
      WithoutDistinct(recent, e.key);
      TouchSplits(early, recent, e);
      NewestAppend(Without(early, e.key), Touch(recent, e), n);
    }
  }

  lemma TouchSplits(a: seq<Entry>, b: seq<Entry>, e: Entry)
    ensures Touch(a + b, e) == Without(a, e.key) + Touch(b, e)
  {
    WithoutAppend(a, b, e.key);
    assert Without(a, e.key) + Without(b, e.key) + [e] == Without(a, e.key) + (Without(b, e.key) + [e]);
  }

  lemma NewestAppend(a: seq<Entry>, b: seq<Entry>, n: nat)
    requires n <= |b|
    ensures Newest(a + b, n) == Newest(b, n)
  {
    assert (a + b)[|a + b| - n..] == b[|b| - n..];
  }

  lemma {:induction false} FoundIsUsed(uses: seq<Entry>)
    ensures forall i :: 0 <= i < |LastUses(uses)| ==> LastUses(uses)[i] in uses
  {
    if uses != [] {
      FoundIsUsed(uses[..|uses| - 1]);
      WithoutIsSubset(LastUses(uses[..|uses| - 1]), uses[|uses| - 1].key);
    }
  }

  lemma {:induction false} WithoutIsSubset(entries: seq<Entry>, key: Slot)
    ensures forall i :: 0 <= i < |Without(entries, key)| ==> Without(entries, key)[i] in entries
  {
    if entries != [] { WithoutIsSubset(entries[1..], key); }
  }

  lemma {:induction false} FindIsMember(entries: seq<Entry>, key: Slot)
    ensures Find(entries, key).Some? ==> Entry(key, Find(entries, key).value) in entries
  {
    if entries != [] && entries[0].key != key { FindIsMember(entries[1..], key); }
  }

  // ---------------------------------------------------------------- every move keeps the invariant

  lemma UseKeepsCache(s: State, e: Entry)
    requires CacheOk(s)
    ensures Newest(Touch(s.cache, e), CACHE_MAX_ENTRIES) == Newest(LastUses(s.uses + [e]), CACHE_MAX_ENTRIES)
  {
    LastUsesDistinct(s.uses);
    TouchNewest(LastUses(s.uses), e, CACHE_MAX_ENTRIES);
    assert (s.uses + [e])[..|s.uses|] == s.uses;
  }

  /** A hit never overflows the cache. */
  lemma HitFits(s: State, key: Slot)
    requires CacheOk(s) && Find(s.cache, key).Some?
    ensures var e := Entry(key, Find(s.cache, key).value);
            Newest(Touch(s.cache, e), CACHE_MAX_ENTRIES) == Touch(s.cache, e) && e in s.uses
  {
    FindIsMember(s.cache, key);
    FoundIsUsed(s.uses);
    WithoutFound(s.cache, key);
  }

  lemma {:induction false} WithoutFound(entries: seq<Entry>, key: Slot)
    ensures |Without(entries, key)| <= |entries|
    ensures Find(entries, key).Some? ==> |Without(entries, key)| < |entries|
  {
    if entries != [] { WithoutFound(entries[1..], key); }
  }

  lemma ProducedStays(runs: seq<Run>, runs': seq<Run>, e: Entry)
    requires Produced(runs, e) && |runs| <= |runs'|
    requires forall id :: 0 <= id < |runs| && runs[id].future.Some? ==>
             runs'[id].key == runs[id].key && runs'[id].future == runs[id].future
    ensures Produced(runs', e)
  {
    var id :| 0 <= id < |runs| && runs[id].key == e.key && runs[id].future == Some(Sound(e.wav));
    assert runs'[id].key == e.key && runs'[id].future == Some(Sound(e.wav));
  }

  lemma HitKeepsInv(s: State, key: Slot)
    requires Inv(s) && Find(s.cache, key).Some?
    ensures Inv(Next(s, Request(key)))
  {
    HitFits(s, key);
    UseKeepsCache(s, Entry(key, Find(s.cache, key).value));
  }

  /** Resolved futures stay, so what was produced stays produced. */
  lemma UsesStay(s: State, s': State)
    requires UsesOk(s) && s'.uses == s.uses && |s.runs| <= |s'.runs|
    requires forall id :: 0 <= id < |s.runs| && s.runs[id].future.Some? ==>
               s'.runs[id].key == s.runs[id].key && s'.runs[id].future == s.runs[id].future
    ensures UsesOk(s')
  {
    forall i | 0 <= i < |s.uses| ensures Produced(s'.runs, s.uses[i]) {
      ProducedStays(s.runs, s'.runs, s.uses[i]);
    }
  }

  lemma MissKeepsInv(s: State, key: Slot)
    requires Inv(s) && Find(s.cache, key).None?
    ensures Inv(Next(s, Request(key)))
  {
    hide UsesOk, Newest, LastUses, Verdict;
    UsesStay(s, Next(s, Request(key)));
  }

  lemma SettleKeepsUses(s: State, id: nat)
    requires Inv(s) && id < |s.runs| && !s.runs[id].task.Running? && s.runs[id].future.None?
    ensures UsesOk(Settled(s, id))
  {
    hide Newest, LastUses, Touch, CacheOk, SlotsOk, WaitersOk, RunsOk;
    var s' := Settled(s, id);
    var run := s.runs[id];
    UsesStay(s, s.(runs := s'.runs));
    if Verdict(run.task).Sound? {
      assert s'.runs[id].key == run.key && s'.runs[id].future == Some(Verdict(run.task));
    }
  }

  lemma SettleKeepsCache(s: State, id: nat)
    requires CacheOk(s) && id < |s.runs| && !s.runs[id].task.Running?
    ensures CacheOk(Settled(s, id))
  {
    hide LastUses, Newest, Touch;
    var run := s.runs[id];
    if Verdict(run.task).Sound? { UseKeepsCache(s, Entry(run.key, Verdict(run.task).wav)); }
  }

  lemma SettleKeepsSlots(s: State, id: nat)
    requires SlotsOk(s) && id < |s.runs| && !s.runs[id].task.Running? && s.runs[id].future.None?
    ensures SlotsOk(Settled(s, id))
  {
    hide Newest, Touch, Verdict;
  }

  lemma SettleKeepsInv(s: State, id: nat)
    requires Inv(s) && id < |s.runs| && !s.runs[id].task.Running? && s.runs[id].future.None?
    ensures Inv(Settled(s, id))
  {
    hide Newest, Touch, UsesOk, CacheOk, SlotsOk;
    SettleKeepsUses(s, id);
    SettleKeepsCache(s, id);
    SettleKeepsSlots(s, id);
  }

  lemma ResetKeepsInv(s: State)
    requires Inv(s)
    ensures Inv(Next(s, Reset))
  {
  }

  lemma OtherMovesKeepInv(s: State, m: Move)
    requires Inv(s) && Enabled(s, m) && !m.Request? && !m.Resume? && !m.Adopt? && !m.Reset?
    ensures Inv(Next(s, m))
  {
    hide UsesOk, Newest, LastUses;
    UsesStay(s, Next(s, m));
  }

  lemma MoveKeepsInv(s: State, m: Move)
    requires Inv(s) && Enabled(s, m)
    ensures Inv(Next(s, m))
  {
    match m
    case Request(key) => if Find(s.cache, key).Some? { HitKeepsInv(s, key); } else { MissKeepsInv(s, key); }
    case Resume(id) => SettleKeepsInv(s, id);
    case Adopt(id) => SettleKeepsInv(s, id);
    case Land(_, _) => OtherMovesKeepInv(s, m);
    case CancelTask(_) => OtherMovesKeepInv(s, m);
    case CancelLeader(_) => OtherMovesKeepInv(s, m);
    case Deliver(_) => OtherMovesKeepInv(s, m);
    case CancelWaiter(_) => OtherMovesKeepInv(s, m);
    case Reset => ResetKeepsInv(s);
  }

  lemma {:induction false} RunKeepsInv(s: State, moves: seq<Move>)
    requires Inv(s) && Legal(s, moves)
    ensures Inv(After(s, moves))
    decreases |moves|
  {
    if moves != [] {
      MoveKeepsInv(s, moves[0]);
      RunKeepsInv(Next(s, moves[0]), moves[1..]);
    }
  }

  // ---------------------------------------------------------------- safety

  /** In every state any interleaving can reach: an unresolved future has a live leader or adopter;
      between two resets at most one generation per key is under way; a waiter that was answered got
      the outcome of the one generation it joined, never a cancellation of the leader; and the cache
      is the twelve most recently used results, each produced by a successful run within the cap. */
  lemma SingleFlightIsSafe(moves: seq<Move>)
    requires Legal(Initial, moves)
    ensures var s := After(Initial, moves);
            && (forall id :: 0 <= id < |s.runs| && s.runs[id].future.None? ==>
                s.runs[id].phase.Leading? || s.runs[id].phase.Adopted?)
            && (forall i, j :: 0 <= i < j < |s.runs| &&
                               s.runs[i].key == s.runs[j].key && s.runs[i].epoch == s.runs[j].epoch == s.epoch ==>
                  !(s.runs[i].task.Running? && s.runs[j].task.Running?))
            && (forall w :: 0 <= w < |s.waiters| && s.waiters[w].reply.Some? && s.waiters[w].reply.value.Got? ==>
                  && s.waiters[w].run < |s.runs|
                  && var run := s.runs[s.waiters[w].run];
                     !run.task.Running? && s.waiters[w].reply.value.outcome == Verdict(run.task))
            && |s.cache| <= CACHE_MAX_ENTRIES
            && s.cache == Newest(LastUses(s.uses), CACHE_MAX_ENTRIES)
            && (forall e :: e in s.cache ==> |e.wav| <= MAX_SFX_BYTES && Produced(s.runs, e))
  {
    RunKeepsInv(Initial, moves);
    var s := After(Initial, moves);
    forall e | e in s.cache ensures |e.wav| <= MAX_SFX_BYTES && Produced(s.runs, e) {
      FoundIsUsed(s.uses);
      assert e in LastUses(s.uses);
    }
  }

  /** A resolved future is never resolved again, and settling a run releases no slot but its own: a
      run from before a reset never removes the slot of a newer one. A failed or oversized generation
      leaves the cache as it was. */
  lemma SettlesOnceAndOnlyItsOwn(s: State, m: Move)
    requires Inv(s) && Enabled(s, m)
    ensures forall id :: 0 <= id < |s.runs| && s.runs[id].future.Some? ==>
            Next(s, m).runs[id].future == s.runs[id].future
    ensures m.Resume? || m.Adopt? ==>
              && Next(s, m).runs[m.id].future == Some(Verdict(s.runs[m.id].task))
              && (forall key :: key in s.inflight && s.inflight[key] != m.id ==>
                    key in Next(s, m).inflight && Next(s, m).inflight[key] == s.inflight[key])
              && (Verdict(s.runs[m.id].task).Fails? ==> Next(s, m).cache == s.cache)
    ensures forall w :: 0 <= w < |s.waiters| && s.waiters[w].reply.None? &&
                        Next(s, m).waiters[w].reply == Some(OwnCancellation) ==>
              m == CancelWaiter(w)
  {
  }

  // ---------------------------------------------------------------- what a move does

  /** The run's call brought a payload within the cap. */
  ghost predicate Succeeded(run: Run, wav: Wav) {
    run.task == Landed(Sound(wav)) && |wav| <= MAX_SFX_BYTES
  }

  lemma {:induction false} FindAppend(a: seq<Entry>, e: Entry, key: Slot)
    ensures Find(a + [e], key) ==
            if Find(a, key).Some? then Find(a, key) else if e.key == key then Some(e.wav) else None
  {
    if a == [] {
      assert a + [e] == [e] && [e][1..] == [];
    } else {
      assert (a + [e])[1..] == a[1..] + [e];
      FindAppend(a[1..], e, key);
    }
  }

  lemma {:induction false} FindWithout(entries: seq<Entry>, gone: Slot, key: Slot)
    ensures Find(Without(entries, gone), key) == if key == gone then None else Find(entries, key)
  {
    if entries != [] { FindWithout(entries[1..], gone, key); }
  }

  /** The entry used last is found, and every other key is found as before unless the size pushes it out. */
  lemma TouchFinds(entries: seq<Entry>, e: Entry, key: Slot)
    ensures Find(Touch(entries, e), key) == if key == e.key then Some(e.wav) else Find(entries, key)
  {
    FindWithout(entries, e.key, key);
    FindAppend(Without(entries, e.key), e, key);
  }

  lemma {:induction false} LastIsFound(entries: seq<Entry>, e: Entry)
    requires DistinctKeys(entries) && entries != [] && entries[|entries| - 1] == e
    ensures Find(entries, e.key) == Some(e.wav)
  {
    if |entries| > 1 {
      LastIsFound(entries[1..], e);
      AbsentIsNot(entries[1..], entries[0].key, |entries| - 2);
    }
  }

  lemma {:induction false} AbsentIsNot(entries: seq<Entry>, key: Slot, i: nat)
    requires Absent(entries, key) && i < |entries|
    ensures entries[i].key != key
  {
    if i > 0 { AbsentIsNot(entries[1..], key, i - 1); }
  }

  lemma CacheIsDistinct(s: State)
    requires CacheOk(s)
    ensures DistinctKeys(s.cache) && |s.cache| <= CACHE_MAX_ENTRIES
  {
    var all := LastUses(s.uses);
    LastUsesDistinct(s.uses);
    if |all| > CACHE_MAX_ENTRIES {
      assert all == all[..|all| - CACHE_MAX_ENTRIES] + s.cache;
      DistinctSuffix(all[..|all| - CACHE_MAX_ENTRIES], s.cache);
    }
  }

  /** A payload within the cap resolves the future, is found in the cache afterwards and stands at the recently
      used end; the next request for it starts no run and joins none. */
  lemma SuccessIsCached(s: State, m: Move, wav: Wav)
    requires Inv(s) && Enabled(s, m) && (m.Resume? || m.Adopt?) && Succeeded(s.runs[m.id], wav)
    ensures var key, after := s.runs[m.id].key, Next(s, m);
            && after.runs == s.runs[m.id := s.runs[m.id].(phase := Finished, future := Some(Sound(wav)))]
            && Find(after.cache, key) == Some(wav)
            && after.cache != [] && after.cache[|after.cache| - 1] == Entry(key, wav)
            && Next(after, Request(key)).runs == after.runs && Next(after, Request(key)).waiters == after.waiters
  {
    MoveKeepsInv(s, m);
    CacheIsDistinct(Next(s, m));
    LastIsFound(Next(s, m).cache, Entry(s.runs[m.id].key, wav));
  }

  /** Anything else resolves the future with its error and leaves the cache alone. */
  lemma FailureIsPassedOn(s: State, m: Move)
    requires Inv(s) && Enabled(s, m) && (m.Resume? || m.Adopt?)
    requires forall wav :: !Succeeded(s.runs[m.id], wav)
    ensures Next(s, m).cache == s.cache
    ensures var (task, future) := (s.runs[m.id].task, Next(s, m).runs[m.id].future);
            match task
            case TaskCancelled => future == Some(Fails(Abandoned))
            case Landed(Fails(e)) => future == Some(Fails(e))
            case Landed(Sound(wav)) => |wav| > MAX_SFX_BYTES && future == Some(Fails(OverCap))
            case Running => false
  {
    match s.runs[m.id].task
    case Landed(Sound(wav)) => assert !Succeeded(s.runs[m.id], wav);
    case _ =>
  }

  /** A hit answers from the cache, starts and joins nothing, moves its entry to the recently used end and loses
      no other. */
  lemma HitStartsNothing(s: State, key: Slot, other: Slot)
    requires Inv(s) && Find(s.cache, key).Some?
    ensures var (wav, after) := (Find(s.cache, key).value, Next(s, Request(key)));
            && after.runs == s.runs && after.waiters == s.waiters && after.inflight == s.inflight
            && after.cache != [] && after.cache[|after.cache| - 1] == Entry(key, wav)
            && Find(after.cache, other) == Find(s.cache, other)
  {
    TouchFinds(s.cache, Entry(key, Find(s.cache, key).value), other);
  }

  /** A miss joins the one run under way for the key, or starts one. */
  lemma MissJoinsOrStarts(s: State, key: Slot)
    requires Inv(s) && Find(s.cache, key).None?
    ensures var after := Next(s, Request(key));
            && after.cache == s.cache
            && (if key in s.inflight then
                  && after.runs == s.runs && after.inflight == s.inflight
                  && after.waiters == s.waiters + [Waiter(s.inflight[key], None)]
                  && s.inflight[key] < |s.runs| && s.runs[s.inflight[key]].key == key
                else
                  && after.runs == s.runs + [Run(key, s.epoch, Leading, Running, None)]
                  && after.inflight == s.inflight[key := |s.runs|] && after.waiters == s.waiters)
  {
  }

  /** What a run's future becomes when it settles. */
  ghost predicate Settles(task: Task, future: Option<Outcome>) {
    match task
    case Running => false
    case TaskCancelled => future == Some(Fails(Abandoned))
    case Landed(Fails(e)) => future == Some(Fails(e))
    case Landed(Sound(wav)) => future == if |wav| <= MAX_SFX_BYTES then Some(Sound(wav)) else Some(Fails(OverCap))
  }

  /** A run changes by its own moves only: its call ends when it lands or is cancelled, its leader leaves it to the
      adopter when cancelled, and whoever settles it finishes it and resolves its future by what its call brought. */
  lemma RunsChangeExactlyBy(s: State, m: Move, id: nat)
    requires Inv(s) && Enabled(s, m) && id < |s.runs|
    ensures var (before, after) := (s.runs[id], Next(s, m).runs[id]);
            && after.key == before.key && after.epoch == before.epoch
            && (if m == Resume(id) || m == Adopt(id) then
                  after.phase == Finished && Settles(before.task, after.future) && after.task == before.task
                else if m == CancelLeader(id) then
                  after.phase == Adopted && after.future == before.future && after.task == before.task
                else if m == CancelTask(id) then
                  after.task == TaskCancelled && after.phase == before.phase && after.future == before.future
                else if m.Land? && m.id == id then
                  after.task == Landed(m.outcome) && after.phase == before.phase && after.future == before.future
                else after == before)
  {
  }

  /** A waiter is answered by its own delivery, with what the future of the run it joined holds, or by its own
      cancellation, and by nothing else; and nothing but a reset and the run's own settling frees a slot. */
  lemma WaitersChangeExactlyBy(s: State, m: Move, w: nat, key: Slot)
    requires Inv(s) && Enabled(s, m)
    ensures Next(s, m).epoch == if m == Reset then s.epoch + 1 else s.epoch
    ensures w < |s.waiters| ==>
              var (before, after) := (s.waiters[w], Next(s, m).waiters[w]);
              && before.run < |s.runs| && after.run == before.run
              && (m == Deliver(w) ==>
                    s.runs[before.run].future.Some? && after.reply == Some(Got(s.runs[before.run].future.value)))
              && (m == CancelWaiter(w) ==> after.reply == Some(OwnCancellation))
              && (m != Deliver(w) && m != CancelWaiter(w) ==> after == before)
    ensures key in s.inflight ==>
              (key !in Next(s, m).inflight <==> m in {Reset, Resume(s.inflight[key]), Adopt(s.inflight[key])})
    ensures m.Land? || m.CancelTask? || m.CancelLeader? || m.Deliver? || m.CancelWaiter? ==>
              Next(s, m).cache == s.cache && Next(s, m).inflight == s.inflight
    ensures m == Reset ==> Next(s, m).cache == [] && Next(s, m).inflight == map[]
  {
  }

  /** Each call ends once, each run settles once, and each waiter is answered once. */
  lemma OnlyOnce(s: State, id: nat, w: nat, outcome: Outcome)
    requires Inv(s)
    ensures id < |s.runs| ==>
              var run := s.runs[id];
              && (Enabled(s, CancelTask(id)) <==> run.task == Running)
              && (Enabled(s, Land(id, outcome)) <==>
                    run.task == Running && (outcome.Sound? || outcome.error.Upstream?))
              && (Enabled(s, CancelLeader(id)) <==> run.phase == Leading)
              && (Enabled(s, Resume(id)) || Enabled(s, Adopt(id)) <==>
                    run.future == None && run.task != Running && (run.phase == Leading ==> run.task != TaskCancelled))
              && !(Enabled(s, Resume(id)) && Enabled(s, Adopt(id)))
    ensures w < |s.waiters| ==>
              && (Enabled(s, CancelWaiter(w)) <==> s.waiters[w].reply == None)
              && (Enabled(s, Deliver(w)) <==>
                    s.waiters[w].reply == None && s.runs[s.waiters[w].run].future != None)
  {
  }

  // ---------------------------------------------------------------- how long a payload stays

  /** The key a move uses: of a hit, or of a payload that is stored. */
  ghost function UsedBy(s: State, m: Move): set<Slot>
    requires Enabled(s, m)
  {
    match m
    case Request(key) => if Find(s.cache, key).Some? then {key} else {}
    case Resume(id) => if exists wav :: Succeeded(s.runs[id], wav) then {s.runs[id].key} else {}
    case Adopt(id) => if exists wav :: Succeeded(s.runs[id], wav) then {s.runs[id].key} else {}
    case _ => {}
  }

  ghost function UsedDuring(s: State, moves: seq<Move>): set<Slot>
    requires Legal(s, moves)
    decreases moves
  {
    if moves == [] then {} else UsedBy(s, moves[0]) + UsedDuring(Next(s, moves[0]), moves[1..])
  }

  ghost predicate NoReset(moves: seq<Move>) {
    moves == [] || (!moves[0].Reset? && NoReset(moves[1..]))
  }

  /** The entries behind a key's, more recently used. */
  ghost function BehindKey(entries: seq<Entry>, key: Slot): seq<Entry> {
    if entries == [] then []
    else if entries[0].key == key then entries[1..]
    else BehindKey(entries[1..], key)
  }

  ghost function Keys(entries: seq<Entry>): set<Slot> {
    if entries == [] then {} else {entries[0].key} + Keys(entries[1..])
  }

  lemma {:induction false} AbsentKeys(entries: seq<Entry>, key: Slot)
    ensures Absent(entries, key) <==> key !in Keys(entries)
    ensures Absent(entries, key) <==> Find(entries, key).None?
  {
    if entries != [] { AbsentKeys(entries[1..], key); }
  }

  lemma {:induction false} DistinctCount(entries: seq<Entry>)
    requires DistinctKeys(entries)
    ensures |Keys(entries)| == |entries|
  {
    if entries != [] {
      DistinctCount(entries[1..]);
      AbsentKeys(entries[1..], entries[0].key);
    }
  }

  lemma {:induction false} KeysAppend(a: seq<Entry>, b: seq<Entry>)
    ensures Keys(a + b) == Keys(a) + Keys(b)
  {
    if a == [] {
      assert a + b == b;
    } else {
      assert (a + b)[1..] == a[1..] + b;
      KeysAppend(a[1..], b);
    }
  }

  lemma {:induction false} KeysWithout(entries: seq<Entry>, key: Slot)
    ensures Keys(Without(entries, key)) == Keys(entries) - {key}
  {
    if entries != [] { KeysWithout(entries[1..], key); }
  }

  /** Using another key puts it behind. */
  lemma {:induction false} BehindTouch(entries: seq<Entry>, e: Entry, key: Slot)
    requires DistinctKeys(entries) && Find(entries, key).Some? && e.key != key
    ensures BehindKey(Touch(entries, e), key) == Touch(BehindKey(entries, key), e)
  {
    var t := Touch(entries, e);
    if entries[0].key == key {
      assert t == [entries[0]] + Touch(entries[1..], e);
    } else {
      BehindTouch(entries[1..], e, key);
      if entries[0].key == e.key {
        assert t == Touch(entries[1..], e);
      } else {
        assert t == [entries[0]] + Touch(entries[1..], e);
      }
    }
  }

  lemma {:induction false} BehindIsDistinct(entries: seq<Entry>, key: Slot)
    requires DistinctKeys(entries)
    ensures DistinctKeys(BehindKey(entries, key)) && |BehindKey(entries, key)| <= |entries|
    ensures Absent(BehindKey(entries, key), key)
    ensures Find(entries, key).Some? ==> |BehindKey(entries, key)| < |entries|
  {
    if entries != [] { BehindIsDistinct(entries[1..], key); }
  }

  /** A key last used before exactly these others is still there, or pushed out by as many as there is room for. */
  ghost predicate StandsBefore(cache: seq<Entry>, key: Slot, wav: Wav, used: set<Slot>) {
    if |used| < CACHE_MAX_ENTRIES then Find(cache, key) == Some(wav) && Keys(BehindKey(cache, key)) == used
    else Find(cache, key).None?
  }

  lemma TouchIsDistinct(entries: seq<Entry>, e: Entry)
    requires DistinctKeys(entries)
    ensures DistinctKeys(Touch(entries, e)) && |Touch(entries, e)| <= |entries| + 1
  {
    WithoutDistinct(entries, e.key);
    WithoutAbsent(entries, e.key);
    AppendDistinct(Without(entries, e.key), e);
    WithoutFound(entries, e.key);
  }

  lemma MoreKeys(a: set<Slot>, b: set<Slot>)
    ensures |a| <= |a + b|
  {
    assert a + b == a + (b - a);
  }

  lemma CutKeepsRecent(t: seq<Entry>, key: Slot, wav: Wav)
    requires DistinctKeys(t) && |t| <= CACHE_MAX_ENTRIES + 1 && Find(t, key) == Some(wav)
    ensures StandsBefore(Newest(t, CACHE_MAX_ENTRIES), key, wav, Keys(BehindKey(t, key)))
  {
    BehindIsDistinct(t, key);
    DistinctCount(BehindKey(t, key));
    if |t| > CACHE_MAX_ENTRIES {
      assert Newest(t, CACHE_MAX_ENTRIES) == t[1..];
      AbsentKeys(t[1..], t[0].key);
      BehindIsDistinct(t[1..], key);
    }
  }

  lemma CutKeepsNone(t: seq<Entry>, key: Slot)
    requires Find(t, key).None? && |t| <= CACHE_MAX_ENTRIES + 1
    ensures Find(Newest(t, CACHE_MAX_ENTRIES), key).None?
  {
  }

  lemma UseMovesOn(cache: seq<Entry>, key: Slot, wav: Wav, used: set<Slot>, e: Entry)
    requires DistinctKeys(cache) && |cache| <= CACHE_MAX_ENTRIES && e.key != key
    requires StandsBefore(cache, key, wav, used)
    ensures StandsBefore(Newest(Touch(cache, e), CACHE_MAX_ENTRIES), key, wav, used + {e.key})
  {
    hide Newest;
    var t := Touch(cache, e);
    TouchIsDistinct(cache, e);
    TouchFinds(cache, e, key);
    MoreKeys(used, {e.key});
    if Find(cache, key).Some? {
      BehindTouch(cache, e, key);
      KeysWithout(BehindKey(cache, key), e.key);
      KeysAppend(Without(BehindKey(cache, key), e.key), [e]);
      assert [e][1..] == [];
      assert Keys(BehindKey(t, key)) == used + {e.key};
      CutKeepsRecent(t, key, wav);
    } else {
      CutKeepsNone(t, key);
    }
  }

  /** Every move but a reset leaves the cache, or uses one key. */
  lemma MoveUsesOne(s: State, m: Move) returns (e: Entry)
    requires Inv(s) && Enabled(s, m) && !m.Reset?
    ensures if UsedBy(s, m) == {} then Next(s, m).cache == s.cache
            else UsedBy(s, m) == {e.key} && Next(s, m).cache == Newest(Touch(s.cache, e), CACHE_MAX_ENTRIES)
  {
    e := Entry("", []);
    if m.Request? && Find(s.cache, m.key).Some? {
      HitFits(s, m.key);
      e := Entry(m.key, Find(s.cache, m.key).value);
    } else if m.Resume? || m.Adopt? {
      var run := s.runs[m.id];
      if wav :| Succeeded(run, wav) {
        e := Entry(run.key, wav);
      } else {
        FailureIsPassedOn(s, m);
      }
    }
  }

  lemma {:induction false} StandsOn(s: State, moves: seq<Move>, key: Slot, wav: Wav, used: set<Slot>)
    requires Inv(s) && Legal(s, moves) && NoReset(moves) && key !in UsedDuring(s, moves)
    requires StandsBefore(s.cache, key, wav, used)
    ensures StandsBefore(After(s, moves).cache, key, wav, used + UsedDuring(s, moves))
    decreases moves
  {
    hide StandsBefore, Inv, Enabled, Next, Touch, Newest, UsedBy;
    if moves == [] {
      assert used + {} == used;
    } else {
      var m := moves[0];
      var e := MoveUsesOne(s, m);
      MoveKeepsInv(s, m);
      InvIsDistinct(s);
      var next := used + UsedBy(s, m);
      if UsedBy(s, m) == {} {
        assert next == used;
      } else {
        UseMovesOn(s.cache, key, wav, used, e);
      }
      StandsOn(Next(s, m), moves[1..], key, wav, next);
      assert next + UsedDuring(Next(s, m), moves[1..]) == used + UsedDuring(s, moves);
    }
  }

  lemma InvIsDistinct(s: State)
    requires Inv(s)
    ensures DistinctKeys(s.cache) && |s.cache| <= CACHE_MAX_ENTRIES
  {
    CacheIsDistinct(s);
  }

  lemma {:induction false} NothingBehindLast(entries: seq<Entry>, key: Slot)
    requires DistinctKeys(entries) && entries != [] && entries[|entries| - 1].key == key
    ensures BehindKey(entries, key) == []
  {
    if |entries| > 1 {
      NothingBehindLast(entries[1..], key);
      AbsentIsNot(entries[1..], entries[0].key, |entries| - 2);
    }
  }

  /** From its last use on, and as long as there is no reset, a payload is found if and only if fewer than twelve
      other keys have been used since. */
  lemma StaysExactlyWhile(s: State, moves: seq<Move>, key: Slot, wav: Wav)
    requires Inv(s) && Legal(s, moves) && NoReset(moves) && key !in UsedDuring(s, moves)
    requires s.cache != [] && s.cache[|s.cache| - 1] == Entry(key, wav)
    ensures Find(After(s, moves).cache, key) ==
            if |UsedDuring(s, moves)| < CACHE_MAX_ENTRIES then Some(wav) else None
  {
    InvIsDistinct(s);
    LastIsFound(s.cache, Entry(key, wav));
    NothingBehindLast(s.cache, key);
    StandsOn(s, moves, key, wav, {});
    assert {} + UsedDuring(s, moves) == UsedDuring(s, moves);
  }

  // ---------------------------------------------------------------- progress

  /** How many moves of its own a run still needs at most. */
  function Rank(run: Run): nat {
    if run.future.Some? then 0 else 1 + (if run.task.Running? then 1 else 0) + (if run.phase.Leading? then 1 else 0)
  }

  predicate OwnMove(m: Move, id: nat) {
    match m
    case Land(i, _) => i == id
    case CancelTask(i) => i == id
    case Resume(i) => i == id
    case CancelLeader(i) => i == id
    case Adopt(i) => i == id
    case _ => false
  }

  function OwnMoves(moves: seq<Move>, id: nat): nat {
    if moves == [] then 0 else (if OwnMove(moves[0], id) then 1 else 0) + OwnMoves(moves[1..], id)
  }

  lemma RankDrops(s: State, m: Move, id: nat)
    requires Inv(s) && Enabled(s, m) && id < |s.runs|
    ensures id < |Next(s, m).runs|
    ensures Rank(Next(s, m).runs[id]) + (if OwnMove(m, id) then 1 else 0) <= Rank(s.runs[id])
  {
  }

  /** No other request, run or reset delays a run: it uses up at most three moves of its own, and
      after them its future is resolved. */
  lemma {:induction false} RunsUseUpTheirMoves(s: State, moves: seq<Move>, id: nat)
    requires Inv(s) && Legal(s, moves) && id < |s.runs|
    ensures id < |After(s, moves).runs|
    ensures Rank(After(s, moves).runs[id]) + OwnMoves(moves, id) <= Rank(s.runs[id]) <= 3
    ensures OwnMoves(moves, id) >= Rank(s.runs[id]) ==> After(s, moves).runs[id].future.Some?
    decreases |moves|
  {
    if moves != [] {
      RankDrops(s, moves[0], id);
      MoveKeepsInv(s, moves[0]);
      RunsUseUpTheirMoves(Next(s, moves[0]), moves[1..], id);
    }
  }

  /** Nothing hangs: while a future is unresolved its run can move; once the upstream call is over it needs
      no outside help. */
  lemma NothingHangs(s: State, id: nat)
    requires Inv(s) && id < |s.runs|
    ensures s.runs[id].future.None? && s.runs[id].task.Running? ==>
            Enabled(s, CancelTask(id)) && Enabled(s, Land(id, Sound([])))
    ensures s.runs[id].future.None? && !s.runs[id].task.Running? ==>
              Enabled(s, Adopt(id)) || Enabled(s, Resume(id)) ||
                  (s.runs[id].task.TaskCancelled? && Enabled(s, CancelLeader(id)))
  {
  }

  /** When a future is resolved every unanswered waiter of its run can be answered. */
  lemma WaitersCanBeAnswered(s: State, w: nat)
    requires Inv(s) && w < |s.waiters|
    ensures s.waiters[w].run < |s.runs|
    ensures s.waiters[w].reply.None? && s.runs[s.waiters[w].run].future.Some? ==> Enabled(s, Deliver(w))
  {
  }

  // ---------------------------------------------------------------- the source's code between awaits

  datatype Loading = Cached(wav: Wav) | Joined(waiter: nat) | Started(id: nat)

  /** The eviction loop: drop from the least recently used end. */
  method Evict(entries: seq<Entry>) returns (kept: seq<Entry>)
    ensures kept == Newest(entries, CACHE_MAX_ENTRIES)
  {
    kept := entries;
    var dropped := 0;
    while |kept| > CACHE_MAX_ENTRIES
      invariant dropped <= |entries| && kept == entries[dropped..]
      invariant dropped > 0 ==> |kept| >= CACHE_MAX_ENTRIES
    {
      kept := kept[1..];
      dropped := dropped + 1;
    }
  }

  class AmbienceLoader {
    var cache: seq<Entry>
    var inflight: map<Slot, nat>
    var runs: seq<Run>
    var waiters: seq<Waiter>
    // Observations the source does not keep: resets so far, stores and hits since the last one.
    var epoch: nat
    var uses: seq<Entry>

    ghost function Now(): State
      reads this
    {
      State(cache, inflight, runs, waiters, epoch, uses)
    }

    constructor ()
      ensures Now() == Initial
    {
      cache, inflight, runs, waiters, epoch, uses := [], map[], [], [], 0, [];
    }

    method ResetAmbienceCache()
      modifies this
      ensures Now() == Next(old(Now()), Reset)
    {
      cache, inflight := [], map[];
      epoch, uses := epoch + 1, [];
    }

    /** Cap check, insert at the recently used end, eviction from the other end. */
    method StoreAmbience(key: Slot, wav: Wav) returns (stored: bool)
      modifies this`cache, this`uses
      ensures stored <==> |wav| <= MAX_SFX_BYTES
      ensures Now() == Stored(old(Now()), key, if stored then Sound(wav) else Fails(OverCap))
    {
      if |wav| > MAX_SFX_BYTES { return false; }
      cache := Without(cache, key) + [Entry(key, wav)];
      cache := Evict(cache);
      uses := uses + [Entry(key, wav)];
      return true;
    }

    /** From the request to its first await: cache hit, join, or a new run. */
    method LoadAmbience(key: Slot) returns (r: Loading)
      modifies this
      ensures Now() == Next(old(Now()), Request(key))
      ensures match r
              case Cached(wav) => Find(old(cache), key) == Some(wav)
              case Joined(w) =>
                Find(old(cache), key).None? && w == |old(waiters)| && w < |waiters| && key in inflight &&
                    waiters[w] == Waiter(inflight[key], None)
              case Started(id) =>
                Find(old(cache), key).None? && key !in old(inflight) && id == |old(runs)| && key in inflight &&
                    inflight[key] == id
    {
      var cached := Find(cache, key);
      if cached.Some? {
        cache := Touch(cache, Entry(key, cached.value));
        uses := uses + [Entry(key, cached.value)];
        return Cached(cached.value);
      }
      if key in inflight {
        waiters := waiters + [Waiter(inflight[key], None)];
        return Joined(|waiters| - 1);
      }
      inflight := inflight[key := |runs|];
      runs := runs + [Run(key, epoch, Leading, Running, None)];
      return Started(|runs| - 1);
    }

    /** Drops the join lane, unless a newer run holds it. */
    method FreeSlot(id: nat)
      requires id < |runs|
      modifies this`inflight
      ensures inflight == SlotFreed(old(inflight), runs[id].key, id)
    {
      var key := runs[id].key;
      if key in inflight && inflight[key] == id {
        inflight := map k | k in inflight && k != key :: inflight[k];
      }
    }

    method Resolve(id: nat, outcome: Outcome)
      requires id < |runs|
      modifies this`runs
      ensures runs == old(runs)[id := old(runs)[id].(phase := Finished, future := Some(outcome))]
    {
      runs := runs[id := runs[id].(phase := Finished, future := Some(outcome))];
    }

    /** The leader wakes up with its upstream call finished. */
    method ResumeLeader(id: nat)
      requires Enabled(Now(), Resume(id))
      modifies this
      ensures Now() == Next(old(Now()), Resume(id))
    {
      var run := runs[id];
      match run.task.outcome {
        case Fails(e) =>
          FreeSlot(id);
          Resolve(id, Fails(e));
        case Sound(wav) =>
          var stored := StoreAmbience(run.key, wav);
          if !stored {
            FreeSlot(id);
            Resolve(id, Fails(OverCap));
          } else {
            Resolve(id, Sound(wav));
            FreeSlot(id);
          }
      }
    }

    /** A cancelled leader leaves its upstream call to the adopter and wakes nobody. */
    method LeaveToAdopter(id: nat)
      requires Enabled(Now(), CancelLeader(id))
      modifies this`runs
      ensures Now() == Next(old(Now()), CancelLeader(id))
    {
      runs := runs[id := runs[id].(phase := Adopted)];
    }

    /** The detached callback of an adopted run. */
    method AdoptRun(id: nat)
      requires Enabled(Now(), Adopt(id)) && RunOk(runs[id], epoch)
      modifies this
      ensures Now() == Next(old(Now()), Adopt(id))
    {
      var run := runs[id];
      if run.future.None? {
        match run.task {
          case TaskCancelled => Resolve(id, Fails(Abandoned));
          case Landed(Fails(e)) => Resolve(id, Fails(e));
          case Landed(Sound(wav)) =>
            var stored := StoreAmbience(run.key, wav);
            Resolve(id, if stored then Sound(wav) else Fails(OverCap));
        }
      }
      FreeSlot(id);
    }
  }
}
