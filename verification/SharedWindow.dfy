/** The Redis variant of the limiter (python/vtt_orchestrator/ratelimit.py): every replica reads
    the shared sorted set in one transaction and writes its hit in a second one, so several
    replicas can decide on the same reading. One key, N replicas, any interleaving. */
module SharedWindow {
  import opened Text
  import opened SlidingWindow

  datatype Replica = Idle | Pending(score: real) | Degraded

  /** `zset` holds the scores of the sorted set; `history` the hits admitted through Redis; `expireAt`
      is when the server drops the set unless it is written again. */
  datatype Shared = Shared(zset: Hits, replicas: seq<Replica>, history: Hits, expireAt: Option<real>, clock: real)

  /** A step by one replica, or by the server. A failed call may or may not have reached the server. */
  datatype Move =
    | Read(i: nat, now: real)
    | Write(i: nat, at: real)
    | FailRead(i: nat, at: real, pruned: bool)
    | FailWrite(i: nat, at: real, written: bool)
    | Expire(at: real)

  function Time(m: Move): real {
    match m
    case Read(_, now) => now
    case Write(_, at) => at
    case FailRead(_, at, _) => at
    case FailWrite(_, at, _) => at
    case Expire(at) => at
  }

  function Ceiling(x: real): int {
    -((-x).Floor)
  }

  /** The time to live given to the set with every write. */
  function TimeToLive(window: real): int {
    if Ceiling(window) > 1 then Ceiling(window) else 1
  }

  predicate Enabled(s: Shared, m: Move) {
    && s.clock <= Time(m)
    && match m
       case Read(i, _) => i < |s.replicas| && s.replicas[i].Idle?
       case Write(i, _) => i < |s.replicas| && s.replicas[i].Pending?
       case FailRead(i, _, _) => i < |s.replicas| && s.replicas[i].Idle?
       case FailWrite(i, _, _) => i < |s.replicas| && s.replicas[i].Pending?
       case Expire(at) => s.expireAt.Some? && s.expireAt.value <= at
  }

  /** Records a score in the set and renews its time to live. */
  function Recorded(s: Shared, score: real, at: real, window: real): Shared {
    s.(zset := s.zset + [score], expireAt := Some(at + TimeToLive(window) as real), clock := at)
  }

  function Next(s: Shared, m: Move, limit: nat, window: real): Shared
    requires Enabled(s, m)
  {
    match m
    case Read(i, now) =>
      var live := Live(s.zset, now, window);
      s.(zset := live, clock := now, replicas := if |live| >= limit then s.replicas else s.replicas[i := Pending(now)])
    case Write(i, at) =>
      var score := s.replicas[i].score;
      Recorded(s, score, at, window).(replicas := s.replicas[i := Idle], history := s.history + [score])
    case FailRead(i, at, pruned) =>
      s.(zset := if pruned then Live(s.zset, at, window) else s.zset, clock := at,
         replicas := s.replicas[i := Degraded])
    case FailWrite(i, at, written) =>
      var after := if written then Recorded(s, s.replicas[i].score, at, window) else s.(clock := at);
      after.(replicas := s.replicas[i := Degraded])
    case Expire(at) => s.(zset := [], expireAt := None, clock := at)
  }

  predicate Legal(s: Shared, moves: seq<Move>, limit: nat, window: real)
    decreases moves
  {
    moves == [] || (Enabled(s, moves[0]) && Legal(Next(s, moves[0], limit, window), moves[1..], limit, window))
  }

  function After(s: Shared, moves: seq<Move>, limit: nat, window: real): Shared
    requires Legal(s, moves, limit, window)
    decreases moves
  {
    if moves == [] then s else After(Next(s, moves[0], limit, window), moves[1..], limit, window)
  }

  function Scores(replicas: seq<Replica>): Hits {
    if replicas == [] then []
    else if replicas[0].Pending? then [replicas[0].score] + Scores(replicas[1..])
    else Scores(replicas[1..])
  }

  ghost predicate Fresh(s: Shared) {
    s.zset == [] && s.history == [] && s.expireAt == None && forall i :: 0 <= i < |s.replicas| ==> s.replicas[i].Idle?
  }

  // ---------------------------------------------------------------- pending decisions

  /** Exchanging one replica exchanges its score, if any. */
  lemma {:induction false} ScoresUpdate(replicas: seq<Replica>, i: nat, r: Replica, end: real, window: real)
    requires i < |replicas|
    ensures var before := if replicas[i].Pending? then 1 else 0;
            var after := if r.Pending? then 1 else 0;
            |Scores(replicas[i := r])| + before == |Scores(replicas)| + after
    ensures var before := if replicas[i].Pending? && end - window < replicas[i].score <= end then 1 else 0;
            var after := if r.Pending? && end - window < r.score <= end then 1 else 0;
            InWindow(Scores(replicas[i := r]), end, window) + before == InWindow(Scores(replicas), end, window) + after
  {
    if i == 0 {
      assert replicas[0 := r][1..] == replicas[1..];
    } else {
      ScoresUpdate(replicas[1..], i - 1, r, end, window);
      assert replicas[i := r][1..] == replicas[1..][i - 1 := r];
    }
  }

  lemma {:induction false} ScoresBound(replicas: seq<Replica>)
    ensures |Scores(replicas)| <= |replicas|
  {
    if replicas != [] { ScoresBound(replicas[1..]); }
  }

  /** An idle replica leaves at most N - 1 pending. */
  lemma IdleBound(replicas: seq<Replica>, i: nat)
    requires i < |replicas| && replicas[i].Idle?
    ensures |Scores(replicas)| <= |replicas| - 1
  {
    ScoresUpdate(replicas, i, Pending(0.0), 0.0, 1.0);
    ScoresBound(replicas[i := Pending(0.0)]);
  }

  lemma {:induction false} InWindowBound(hits: Hits, end: real, window: real)
    ensures InWindow(hits, end, window) <= |hits|
  {
    if hits != [] { InWindowBound(hits[1..], end, window); }
  }

  // ---------------------------------------------------------------- the set never grows past limit + N - 1

  /** Members of the set and decisions about to be written. */
  ghost predicate SizeBounded(s: Shared, limit: nat) {
    |s.zset| + |Scores(s.replicas)| <= limit + |s.replicas| - 1
  }

  lemma {:induction false} LiveShorter(hits: Hits, now: real, window: real)
    ensures |Live(hits, now, window)| <= |hits|
  {
    if hits != [] { LiveShorter(hits[1..], now, window); }
  }

  lemma MoveKeepsSize(s: Shared, m: Move, limit: nat, window: real)
    requires Enabled(s, m) && SizeBounded(s, limit)
    ensures SizeBounded(Next(s, m, limit, window), limit)
  {
    LiveShorter(s.zset, Time(m), window);
    match m
    case Read(i, now) =>
      IdleBound(s.replicas, i);
      ScoresUpdate(s.replicas, i, Pending(now), 0.0, 1.0);
    case Write(i, at) => ScoresUpdate(s.replicas, i, Idle, 0.0, 1.0);
    case FailRead(i, _, _) => ScoresUpdate(s.replicas, i, Degraded, 0.0, 1.0);
    case FailWrite(i, _, _) => ScoresUpdate(s.replicas, i, Degraded, 0.0, 1.0);
    case Expire(_) =>
  }

  // ---------------------------------------------------------------- hits admitted in one window

  /** Nothing admitted that still counts has been pruned or expired. */
  ghost predicate HistoryIsStored(s: Shared, window: real) {
    && (forall end :: s.clock <= end ==> InWindow(s.history, end, window) <= InWindow(s.zset, end, window))
    && (forall i :: 0 <= i < |s.replicas| && s.replicas[i].Pending? ==> s.replicas[i].score <= s.clock)
    && (s.expireAt.Some? ==> forall t :: t in s.history ==> t + window <= s.expireAt.value)
    && (s.expireAt.None? ==> forall end :: s.clock <= end ==> InWindow(s.history, end, window) == 0)
  }

  /** Decided hits of any window: those admitted and those about to be. */
  ghost predicate WindowBounded(s: Shared, limit: nat, window: real) {
    forall end ::
      InWindow(s.history, end, window) + InWindow(Scores(s.replicas), end, window) <= limit + |s.replicas| - 1
  }

  ghost predicate Inv(s: Shared, limit: nat, window: real) {
    SizeBounded(s, limit) && HistoryIsStored(s, window) && WindowBounded(s, limit, window)
  }

  lemma {:induction false} LiveKeepsWindow(hits: Hits, now: real, end: real, window: real)
    requires now <= end
    ensures InWindow(Live(hits, now, window), end, window) == InWindow(hits, end, window)
  {
    if hits != [] { LiveKeepsWindow(hits[1..], now, end, window); }
  }

  lemma {:induction false} OldHitsAreOut(hits: Hits, end: real, window: real)
    requires forall t :: t in hits ==> t + window <= end
    ensures InWindow(hits, end, window) == 0
  {
    if hits != [] {
      assert hits[0] in hits && forall t :: t in hits[1..] ==> t in hits;
      OldHitsAreOut(hits[1..], end, window);
    }
  }

  lemma CeilingCovers(window: real)
    ensures window <= TimeToLive(window) as real
  {
  }

  lemma ReadKeepsInv(s: Shared, i: nat, now: real, limit: nat, window: real)
    requires Enabled(s, Read(i, now)) && Inv(s, limit, window)
    ensures Inv(Next(s, Read(i, now), limit, window), limit, window)
  {
    var s' := Next(s, Read(i, now), limit, window);
    MoveKeepsSize(s, Read(i, now), limit, window);
    IdleBound(s.replicas, i);
    forall end | now <= end ensures InWindow(s'.history, end, window) <= InWindow(s'.zset, end, window) {
      LiveKeepsWindow(s.zset, now, end, window);
    }
    forall end
      ensures InWindow(s'.history, end, window) + InWindow(Scores(s'.replicas), end, window) <= limit + |s.replicas| - 1
    {
      assert InWindow(s.history, end, window) + InWindow(Scores(s.replicas), end, window) <= limit + |s.replicas| - 1;
      ScoresUpdate(s.replicas, i, Pending(now), end, window);
      if now <= end && s' .replicas != s.replicas {
        InWindowBound(s'.zset, end, window);
        InWindowBound(Scores(s.replicas), end, window);
      }
    }
  }

  lemma RecordKeepsStored(s: Shared, score: real, at: real, history: Hits, window: real)
    requires HistoryIsStored(s, window) && s.clock <= at && score <= s.clock
    requires history == s.history || history == s.history + [score]
    requires forall t :: t in s.history ==> t <= s.clock
    ensures HistoryIsStored(Recorded(s, score, at, window).(history := history), window)
  {
    CeilingCovers(window);
    forall end | at <= end ensures InWindow(history, end, window) <= InWindow(s.zset + [score], end, window) {
      InWindowAppend(s.history, [score], end, window);
      InWindowAppend(s.zset, [score], end, window);
    }
  }

  ghost predicate HistoryIsPast(s: Shared) {
    forall t :: t in s.history ==> t <= s.clock
  }

  lemma WriteKeepsInv(s: Shared, i: nat, at: real, limit: nat, window: real)
    requires Enabled(s, Write(i, at)) && Inv(s, limit, window) && HistoryIsPast(s)
    ensures Inv(Next(s, Write(i, at), limit, window), limit, window)
  {
    var s' := Next(s, Write(i, at), limit, window);
    var score := s.replicas[i].score;
    MoveKeepsSize(s, Write(i, at), limit, window);
    RecordKeepsStored(s, score, at, s'.history, window);
    forall end
      ensures InWindow(s'.history, end, window) + InWindow(Scores(s'.replicas), end, window) <= limit + |s.replicas| - 1
    {
      assert InWindow(s.history, end, window) + InWindow(Scores(s.replicas), end, window) <= limit + |s.replicas| - 1;
      InWindowAppend(s.history, [score], end, window);
      ScoresUpdate(s.replicas, i, Idle, end, window);
    }
  }

  lemma FailKeepsInv(s: Shared, m: Move, limit: nat, window: real)
    requires Enabled(s, m) && Inv(s, limit, window) && HistoryIsPast(s) && (m.FailRead? || m.FailWrite? || m.Expire?)
    ensures Inv(Next(s, m, limit, window), limit, window)
  {
    var s' := Next(s, m, limit, window);
    MoveKeepsSize(s, m, limit, window);
    if m.FailWrite? && m.written {
      RecordKeepsStored(s, s.replicas[m.i].score, m.at, s.history, window);
    } else {
      forall end | Time(m) <= end ensures InWindow(s'.history, end, window) <= InWindow(s'.zset, end, window) {
        LiveKeepsWindow(s.zset, Time(m), end, window);
        if m.Expire? { OldHitsAreOut(s.history, end, window); }
      }
    }
    if m.Expire? {
      forall end | m.at <= end ensures InWindow(s.history, end, window) == 0 {
        OldHitsAreOut(s.history, end, window);
      }
    } else {
      forall end
        ensures InWindow(s'.history, end, window) + InWindow(Scores(s'.replicas), end, window) <=
                limit + |s.replicas| - 1
      {
        assert InWindow(s.history, end, window) + InWindow(Scores(s.replicas), end, window) <= limit + |s.replicas| - 1;
        ScoresUpdate(s.replicas, m.i, Degraded, end, window);
      }
    }
  }

  lemma {:induction false} RunKeepsInv(s: Shared, moves: seq<Move>, limit: nat, window: real)
    requires Legal(s, moves, limit, window) && Inv(s, limit, window) && HistoryIsPast(s)
    ensures Inv(After(s, moves, limit, window), limit, window)
    decreases |moves|
  {
    if moves != [] {
      match moves[0] {
        case Read(i, now) => ReadKeepsInv(s, i, now, limit, window);
        case Write(i, at) => WriteKeepsInv(s, i, at, limit, window);
        case FailRead(_, _, _) => FailKeepsInv(s, moves[0], limit, window);
        case FailWrite(_, _, _) => FailKeepsInv(s, moves[0], limit, window);
        case Expire(_) => FailKeepsInv(s, moves[0], limit, window);
      }
      RunKeepsInv(Next(s, moves[0], limit, window), moves[1..], limit, window);
    }
  }

  lemma {:induction false} NoScores(replicas: seq<Replica>)
    requires forall i :: 0 <= i < |replicas| ==> replicas[i].Idle?
    ensures Scores(replicas) == []
  {
    if replicas != [] { NoScores(replicas[1..]); }
  }

  /** However N replicas interleave their reads, writes and failures on one nondecreasing clock, the
      set and the writes under way never exceed limit + N - 1, and no interval of window length holds
      more than limit + N - 1 hits admitted through Redis. */
  lemma SharedLimitIsBounded(s: Shared, moves: seq<Move>, limit: nat, window: real)
    requires limit >= 1 && s.replicas != [] && Fresh(s) && Legal(s, moves, limit, window)
    ensures var end := After(s, moves, limit, window);
            && |end.zset| + |Scores(end.replicas)| <= limit + |s.replicas| - 1
            && forall t :: InWindow(end.history, t, window) <= limit + |s.replicas| - 1
  {
    NoScores(s.replicas);
    RunKeepsInv(s, moves, limit, window);
    ReplicaCount(s, moves, limit, window);
  }

  lemma {:induction false} ReplicaCount(s: Shared, moves: seq<Move>, limit: nat, window: real)
    requires Legal(s, moves, limit, window)
    ensures |After(s, moves, limit, window).replicas| == |s.replicas|
    decreases |moves|
  {
    if moves != [] { ReplicaCount(Next(s, moves[0], limit, window), moves[1..], limit, window); }
  }

  // ---------------------------------------------------------------- the bound is reached

  function Zeros(n: nat): Hits {
    if n == 0 then [] else Zeros(n - 1) + [0.0]
  }

  lemma {:induction false} ZerosAreLive(n: nat, window: real)
    requires window > 0.0
    ensures |Zeros(n)| == n && Live(Zeros(n), 0.0, window) == Zeros(n) && InWindow(Zeros(n), 0.0, window) == n
  {
    if n > 0 {
      ZerosAreLive(n - 1, window);
      LiveAppend(Zeros(n - 1), [0.0], 0.0, window);
      InWindowAppend(Zeros(n - 1), [0.0], 0.0, window);
    }
  }

  /** One replica admits k hits, one after the other. */
  function Fills(k: nat): seq<Move> {
    if k == 0 then [] else Fills(k - 1) + [Read(0, 0.0), Write(0, 0.0)]
  }

  /** Replicas 0 to n - 1 read. */
  function Reads(n: nat): seq<Move> {
    if n == 0 then [] else Reads(n - 1) + [Read(n - 1, 0.0)]
  }

  /** Replicas 0 to n - 1 write. */
  function Writes(n: nat): seq<Move> {
    if n == 0 then [] else Writes(n - 1) + [Write(n - 1, 0.0)]
  }

  lemma {:induction false} RunAppend(s: Shared, a: seq<Move>, b: seq<Move>, limit: nat, window: real)
    requires Legal(s, a, limit, window) && Legal(After(s, a, limit, window), b, limit, window)
    ensures Legal(s, a + b, limit, window)
    ensures After(s, a + b, limit, window) == After(After(s, a, limit, window), b, limit, window)
    decreases |a|
  {
    if a == [] {
      assert a + b == b;
    } else {
      assert (a + b)[1..] == a[1..] + b;
      RunAppend(Next(s, a[0], limit, window), a[1..], b, limit, window);
    }
  }

  lemma RunOne(s: Shared, m: Move, limit: nat, window: real)
    requires Enabled(s, m)
    ensures Legal(s, [m], limit, window) && After(s, [m], limit, window) == Next(s, m, limit, window)
  {
    assert [m][1..] == [];
  }

  /** A fleet of n where all of 0 to done - 1 are in state `first` and the rest in state `rest`. */
  function Fleet(n: nat, done: nat, first: Replica, rest: Replica): seq<Replica> {
    seq(n, i => if i < done then first else rest)
  }

  lemma {:induction false} FillRun(n: nat, k: nat, limit: nat, window: real)
    requires n >= 1 && k <= limit && window > 0.0
    ensures var s := Shared([], Fleet(n, 0, Idle, Idle), [], None, 0.0);
            && Legal(s, Fills(k), limit, window)
            && var t := After(s, Fills(k), limit, window);
               t.zset == Zeros(k) && t.history == Zeros(k) && t.clock == 0.0 && t.replicas == Fleet(n, 0, Idle, Idle)
  {
    hide Live, InWindow;
    if k > 0 {
      FillRun(n, k - 1, limit, window);
      ZerosAreLive(k - 1, window);
      var s := Shared([], Fleet(n, 0, Idle, Idle), [], None, 0.0);
      var t := After(s, Fills(k - 1), limit, window);
      var u := Next(t, Read(0, 0.0), limit, window);
      RunOne(t, Read(0, 0.0), limit, window);
      RunOne(u, Write(0, 0.0), limit, window);
      RunAppend(t, [Read(0, 0.0)], [Write(0, 0.0)], limit, window);
      assert [Read(0, 0.0)] + [Write(0, 0.0)] == [Read(0, 0.0), Write(0, 0.0)];
      RunAppend(s, Fills(k - 1), [Read(0, 0.0), Write(0, 0.0)], limit, window);
      assert Fleet(n, 0, Idle, Idle)[0 := Pending(0.0)][0 := Idle] == Fleet(n, 0, Idle, Idle);
    }
  }

  lemma {:induction false} ReadRun(s: Shared, n: nat, k: nat, limit: nat, window: real)
    requires n <= |s.replicas| && s.replicas == Fleet(|s.replicas|, 0, Pending(0.0), Idle)
    requires k < limit && window > 0.0 && s.zset == Zeros(k) && s.clock == 0.0
    ensures Legal(s, Reads(n), limit, window)
    ensures After(s, Reads(n), limit, window) == s.(replicas := Fleet(|s.replicas|, n, Pending(0.0), Idle))
  {
    if n > 0 {
      ReadRun(s, n - 1, k, limit, window);
      ZerosAreLive(k, window);
      var t := After(s, Reads(n - 1), limit, window);
      RunOne(t, Read(n - 1, 0.0), limit, window);
      RunAppend(s, Reads(n - 1), [Read(n - 1, 0.0)], limit, window);
      assert Fleet(|s.replicas|, n - 1, Pending(0.0), Idle)[n - 1 := Pending(0.0)] ==
             Fleet(|s.replicas|, n, Pending(0.0), Idle);
    }
  }

  lemma {:induction false} WriteRun(s: Shared, n: nat, k: nat, limit: nat, window: real)
    requires n <= |s.replicas| && s.replicas == Fleet(|s.replicas|, 0, Idle, Pending(0.0))
    requires window > 0.0 && s.history == Zeros(k) && s.clock == 0.0
    ensures Legal(s, Writes(n), limit, window)
    ensures var t := After(s, Writes(n), limit, window);
            t.history == Zeros(k + n) && t.clock == 0.0 && t.replicas == Fleet(|s.replicas|, n, Idle, Pending(0.0))
  {
    if n > 0 {
      WriteRun(s, n - 1, k, limit, window);
      var t := After(s, Writes(n - 1), limit, window);
      RunOne(t, Write(n - 1, 0.0), limit, window);
      RunAppend(s, Writes(n - 1), [Write(n - 1, 0.0)], limit, window);
      assert Fleet(|s.replicas|, n - 1, Idle, Pending(0.0))[n - 1 := Idle] ==
             Fleet(|s.replicas|, n, Idle, Pending(0.0));
    } else {
      assert Fleet(|s.replicas|, 0, Idle, Pending(0.0)) == s.replicas;
    }
  }

  /** With the set one short of the limit, all replicas read and then all write. */
  lemma RaceRun(t: Shared, n: nat, limit: nat, window: real)
    requires n >= 1 && limit >= 1 && window > 0.0
    requires t.zset == Zeros(limit - 1) && t.history == Zeros(limit - 1) && t.clock == 0.0
    requires t.replicas == Fleet(n, 0, Idle, Idle)
    ensures Legal(t, Reads(n) + Writes(n), limit, window)
    ensures After(t, Reads(n) + Writes(n), limit, window).history == Zeros(limit - 1 + n)
  {
    assert Fleet(n, 0, Idle, Idle) == Fleet(n, 0, Pending(0.0), Idle);
    ReadRun(t, n, limit - 1, limit, window);
    var u := After(t, Reads(n), limit, window);
    assert Fleet(n, n, Pending(0.0), Idle) == Fleet(n, 0, Idle, Pending(0.0));
    WriteRun(u, n, limit - 1, limit, window);
    RunAppend(t, Reads(n), Writes(n), limit, window);
  }

  /** The replicas do not share one budget exactly: for every fleet size and limit some run admits
      limit + N - 1 hits within one window. */
  lemma SharedLimitIsReached(n: nat, limit: nat, window: real) returns (s: Shared, moves: seq<Move>)
    requires n >= 1 && limit >= 1 && window > 0.0
    ensures Fresh(s) && |s.replicas| == n && Legal(s, moves, limit, window)
    ensures InWindow(After(s, moves, limit, window).history, 0.0, window) == limit + n - 1
  {
    hide Legal, After, InWindow, Fills, Reads, Writes, Zeros;
    s := Shared([], Fleet(n, 0, Idle, Idle), [], None, 0.0);
    FillRun(n, limit - 1, limit, window);
    var t := After(s, Fills(limit - 1), limit, window);
    RaceRun(t, n, limit, window);
    moves := Fills(limit - 1) + (Reads(n) + Writes(n));
    RunAppend(s, Fills(limit - 1), Reads(n) + Writes(n), limit, window);
    ZerosAreLive(limit - 1 + n, window);
  }

  /** Every run from a fresh fleet keeps every window at or under the limit. */
  ghost predicate LimitIsKept(n: nat, limit: nat, window: real) {
    forall s, moves ::
      Fresh(s) && |s.replicas| == n && Legal(s, moves, limit, window) ==>
        forall t :: InWindow(After(s, moves, limit, window).history, t, window) <= limit
  }

  /** The fleet keeps the limit it shares, whatever the interleaving, if and only if it is one replica. */
  lemma LimitIsKeptExactlyWhen(n: nat, limit: nat, window: real)
    requires n >= 1 && limit >= 1 && window > 0.0
    ensures LimitIsKept(n, limit, window) <==> n == 1
  {
    hide Legal, After, InWindow, Fresh;
    if n == 1 {
      forall s, moves | Fresh(s) && |s.replicas| == n && Legal(s, moves, limit, window)
        ensures forall t :: InWindow(After(s, moves, limit, window).history, t, window) <= limit
      {
        SharedLimitIsBounded(s, moves, limit, window);
      }
    } else {
      var s, moves := SharedLimitIsReached(n, limit, window);
    }
  }

  // ---------------------------------------------------------------- one replica is the memory limiter

  function Earliest(hits: Hits): real
    requires hits != []
  {
    if |hits| == 1 then hits[0]
    else var rest := Earliest(hits[1..]); if hits[0] < rest then hits[0] else rest
  }

  /** A read phase and, when it admits, a write phase with nothing in between. */
  function CheckRedis(zset: Hits, limit: nat, window: real, now: real): (Verdict, Hits)
    requires limit >= 1
  {
    var live := Live(zset, now, window);
    if |live| >= limit then (RetryAfter(Wait(Earliest(live), now, window)), live) else (Admitted, live + [now])
  }

  /** Where a call to the server breaks, if it does. */
  datatype Outage = NoOutage | AtRead(pruned: bool) | AtWrite(written: bool)

  /** The backend of one replica: any error degrades it to the in-process limiter for good. */
  class RedisWindowBackend {
    var zsets: Table
    var degraded: bool
    const fallback: MemoryWindowBackend

    constructor (fallback: MemoryWindowBackend)
      ensures !degraded && zsets == map[] && this.fallback == fallback
    {
      zsets, degraded := map[], false;
      this.fallback := fallback;
    }

    method Check(key: Key, limit: nat, window: real, now: real, outage: Outage) returns (verdict: Verdict)
      requires limit >= 1
      modifies this`zsets, this`degraded, fallback`windows
      ensures old(degraded) ==> degraded && zsets == old(zsets)
      ensures degraded ==>
                (verdict, fallback.windows) == Checked(old(fallback.windows), key, limit, window, now, fallback.maxKeys)
      ensures !degraded ==>
                && !old(degraded) && fallback.windows == old(fallback.windows)
                && var (v, zset) := CheckRedis(Lookup(old(zsets), key), limit, window, now);
                   verdict == v && zsets == old(zsets)[key := zset]
      ensures degraded <==> old(degraded) || outage.AtRead? ||
                            (outage.AtWrite? && CheckRedis(Lookup(old(zsets), key), limit, window, now).0 == Admitted)
      ensures !old(degraded) && outage.AtRead? ==>
                var live := Live(Lookup(old(zsets), key), now, window);
                zsets == if outage.pruned then old(zsets)[key := live] else old(zsets)
      ensures !old(degraded) && degraded && outage.AtWrite? ==>
                var live := Live(Lookup(old(zsets), key), now, window);
                zsets == old(zsets)[key := if outage.written then live + [now] else live]
    {
      if degraded {
        verdict := fallback.Check(key, limit, window, now);
        return;
      }
      if outage.AtRead? {
        if outage.pruned {
          zsets := zsets[key := Live(Lookup(zsets, key), now, window)];
        }
        degraded := true;
        verdict := fallback.Check(key, limit, window, now);
        return;
      }
      var live := Live(Lookup(zsets, key), now, window);
      zsets := zsets[key := live];
      if |live| >= limit {
        return RetryAfter(Wait(Earliest(live), now, window));
      }
      if outage.AtWrite? {
        if outage.written {
          zsets := zsets[key := live + [now]];
        }
        degraded := true;
        verdict := fallback.Check(key, limit, window, now);
        return;
      }
      zsets := zsets[key := live + [now]];
      return Admitted;
    }
  }

  /** Requests to one replica, and the server dropping a set that only holds expired scores. */
  datatype SoloEvent = Request(key: Key, now: real) | Dropped(key: Key, now: real)

  ghost predicate Possible(zsets: Table, clock: real, events: seq<SoloEvent>)
    decreases events
  {
    events == [] ||
    (&& clock <= events[0].now
     && (events[0].Dropped? ==> Live(Lookup(zsets, events[0].key), events[0].now, Window(events[0].key.bucket)) == [])
     && Possible(SoloStep(zsets, events[0]).1, events[0].now, events[1..]))
  }

  function SoloStep(zsets: Table, e: SoloEvent): (seq<Verdict>, Table) {
    match e
    case Request(key, now) =>
      var (v, zset) := CheckRedis(Lookup(zsets, key), Limit(key.bucket), Window(key.bucket), now);
      ([v], zsets[key := zset])
    case Dropped(key, _) => ([], map k | k in zsets && k != key :: zsets[k])
  }

  function SoloRun(zsets: Table, events: seq<SoloEvent>): seq<Verdict>
    decreases events
  {
    if events == [] then []
    else var (v, z) := SoloStep(zsets, events[0]); v + SoloRun(z, events[1..])
  }

  /** The same requests put to the memory backend. */
  function MemoryEvents(events: seq<SoloEvent>, maxKeys: nat): seq<Event> {
    if events == [] then []
    else if events[0].Request?
    then [SlidingWindow.Check(events[0].key, events[0].now, maxKeys)] + MemoryEvents(events[1..], maxKeys)
    else MemoryEvents(events[1..], maxKeys)
  }

  lemma {:induction false} EarliestIsFirst(hits: Hits, clock: real)
    requires hits != [] && Chronological(hits, clock)
    ensures Earliest(hits) == hits[0]
  {
    if |hits| > 1 {
      EarliestIsFirst(hits[1..], clock);
      assert hits[0] <= hits[1];
    }
  }

  lemma {:induction false} LiveChronological(hits: Hits, clock: real, now: real, window: real)
    requires Chronological(hits, clock)
    ensures Chronological(Live(hits, now, window), clock)
    ensures forall t :: t in Live(hits, now, window) ==> t in hits
  {
    if hits != [] {
      LiveChronological(hits[1..], clock, now, window);
      forall i | 0 < i < |Live(hits, now, window)| ensures Live(hits, now, window)[0] <= Live(hits, now, window)[i] {
        if now - hits[0] < window {
          var t := Live(hits, now, window)[i];
          assert t == Live(hits[1..], now, window)[i - 1];
          assert t in hits[1..];
          var j :| 0 <= j < |hits[1..]| && hits[1..][j] == t;
          assert hits[0] <= hits[j + 1];
        }
      }
    }
  }

  lemma SoloRequest(zsets: Table, history: Table, clock: real, key: Key, now: real)
    requires Agree(zsets, history, clock) && HistorySafe(history, clock) && clock <= now
    ensures var (v, z) := SoloStep(zsets, Request(key, now));
            v == [FullVerdict(history, key, now)] && Agree(z, SlidingWindow.Recorded(history, key, now), now)
  {
    var w := Window(key.bucket);
    var zset, hits := Lookup(zsets, key), Lookup(history, key);
    assert SameLive(zset, hits, clock, w) && Chronological(hits, clock);
    var live := Live(hits, now, w);
    assert Live(zset, now, w) == live;
    LiveChronological(hits, clock, now, w);
    if live != [] { EarliestIsFirst(live, clock); }
    AdmitAgrees(zset, hits, clock, now, w);
    var (v, z) := SoloStep(zsets, Request(key, now));
    forall k
      ensures SameLive(Lookup(z, k), Lookup(SlidingWindow.Recorded(history, key, now), k), now, Window(k.bucket))
    {
      assert SameLive(Lookup(zsets, k), Lookup(history, k), clock, Window(k.bucket));
      if k == key && |live| >= Limit(key.bucket) {
        forall t | now <= t ensures Live(Live(zset, now, w), t, w) == Live(hits, t, w) {
          LiveLater(zset, now, t, w);
        }
      }
    }
  }

  lemma SoloDrop(zsets: Table, history: Table, clock: real, key: Key, now: real)
    requires Agree(zsets, history, clock) && clock <= now
    requires Live(Lookup(zsets, key), now, Window(key.bucket)) == []
    ensures Agree(SoloStep(zsets, Dropped(key, now)).1, history, now)
  {
    var z := SoloStep(zsets, Dropped(key, now)).1;
    forall k ensures SameLive(Lookup(z, k), Lookup(history, k), now, Window(k.bucket)) {
      assert SameLive(Lookup(zsets, k), Lookup(history, k), clock, Window(k.bucket));
      if k == key {
        forall t | now <= t ensures Live(Lookup(history, k), t, Window(k.bucket)) == [] {
          LiveLater(Lookup(zsets, k), now, t, Window(k.bucket));
        }
      }
    }
  }

  lemma {:induction false} SoloAgrees(zsets: Table, history: Table, clock: real, events: seq<SoloEvent>, maxKeys: nat)
    requires Agree(zsets, history, clock) && HistorySafe(history, clock) && Possible(zsets, clock, events)
    ensures SoloRun(zsets, events) == FullRun(history, MemoryEvents(events, maxKeys))
    decreases |events|
  {
    if events != [] {
      var e := events[0];
      var z := SoloStep(zsets, e).1;
      match e {
        case Request(key, now) =>
          SoloRequest(zsets, history, clock, key, now);
          StepIsSafe(history, clock, SlidingWindow.Check(key, now, maxKeys));
          SoloAgrees(z, SlidingWindow.Recorded(history, key, now), now, events[1..], maxKeys);
          assert MemoryEvents(events, maxKeys)[1..] == MemoryEvents(events[1..], maxKeys);
        case Dropped(key, now) =>
          SoloDrop(zsets, history, clock, key, now);
          StepIsSafe(history, clock, Sweep(now));
          SoloAgrees(z, history, now, events[1..], maxKeys);
      }
    }
  }

  lemma {:induction false} MemoryEventsOrdered(zsets: Table, clock: real, later: real, events: seq<SoloEvent>,
                                               maxKeys: nat)
    requires Possible(zsets, later, events) && clock <= later
    ensures Nondecreasing(clock, MemoryEvents(events, maxKeys))
    decreases |events|
  {
    if events != [] {
      var z := SoloStep(zsets, events[0]).1;
      if events[0].Request? {
        MemoryEventsOrdered(z, events[0].now, events[0].now, events[1..], maxKeys);
        assert MemoryEvents(events, maxKeys)[1..] == MemoryEvents(events[1..], maxKeys);
      } else {
        MemoryEventsOrdered(z, clock, events[0].now, events[1..], maxKeys);
      }
    }
  }

  /** With one replica the shared limiter and the memory limiter give the same verdicts, including
      the Retry-After seconds, whatever the memory backend's key cap. */
  lemma OneReplicaMatchesMemory(events: seq<SoloEvent>, start: real, maxKeys: nat)
    requires Possible(map[], start, events)
    ensures SoloRun(map[], events) == Run(map[], MemoryEvents(events, maxKeys))
  {
    SoloAgrees(map[], map[], start, events, maxKeys);
    MemoryEventsOrdered(map[], start, start, events, maxKeys);
    PruningIsInvisible(map[], map[], start, MemoryEvents(events, maxKeys));
  }
}
