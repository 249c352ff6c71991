/** The shared limiter of SharedWindow told from its run: what the set, the replicas and the expiry are at every point,
    read off the moves alone. */
module SharedRuns {
  import opened Text
  import opened SlidingWindow
  import opened SharedWindow

  /** The replica that makes the move. */
  function Actor(m: Move): Option<nat> {
    match m
    case Read(i, _) => Some(i)
    case Write(i, _) => Some(i)
    case FailRead(i, _, _) => Some(i)
    case FailWrite(i, _, _) => Some(i)
    case Expire(_) => None
  }

  /** When replica i last read among the first k moves. */
  ghost function LastRead(moves: seq<Move>, k: nat, i: nat): real
    requires k <= |moves|
  {
    if k == 0 then 0.0
    else match moves[k - 1]
      case Read(j, now) => if i == j then now else LastRead(moves, k - 1, i)
      case _ => LastRead(moves, k - 1, i)
  }

  /** The hits that reached the server since the set last expired: a write stores the time of its reading, a failed
      write may have. */
  ghost function Stored(moves: seq<Move>, k: nat): Hits
    requires k <= |moves|
  {
    if k == 0 then []
    else match moves[k - 1]
      case Write(i, _) => Stored(moves, k - 1) + [LastRead(moves, k - 1, i)]
      case FailWrite(i, _, true) => Stored(moves, k - 1) + [LastRead(moves, k - 1, i)]
      case Expire(_) => []
      case _ => Stored(moves, k - 1)
  }

  /** The hits whose write was answered. */
  ghost function Admissions(moves: seq<Move>, k: nat): Hits
    requires k <= |moves|
  {
    if k == 0 then []
    else match moves[k - 1]
      case Write(i, _) => Admissions(moves, k - 1) + [LastRead(moves, k - 1, i)]
      case _ => Admissions(moves, k - 1)
  }

  /** What replica i is doing after the first k moves: a reading that finds the window full leaves it idle, one that
      does not makes it write; an answered write ends that, and a failed call of either kind ends all its calls. */
  ghost function Doing(moves: seq<Move>, k: nat, i: nat, limit: nat, window: real): Replica
    requires k <= |moves|
  {
    if k == 0 then Idle
    else if Actor(moves[k - 1]) != Some(i) then Doing(moves, k - 1, i, limit, window)
    else match moves[k - 1]
      case Read(_, now) => if InWindow(Stored(moves, k - 1), now, window) < limit then Pending(now) else Idle
      case Write(_, _) => Idle
      case _ => Degraded
  }

  /** The moment of the last write that reached the server, unless the set has expired since. */
  ghost function LastWrite(moves: seq<Move>, k: nat): Option<real>
    requires k <= |moves|
  {
    if k == 0 then None
    else match moves[k - 1]
      case Write(_, at) => Some(at)
      case FailWrite(_, at, true) => Some(at)
      case Expire(_) => None
      case _ => LastWrite(moves, k - 1)
  }

  /** The whole seconds the set outlives its last write: the window rounded up, and one at least. */
  ghost predicate LivesFor(seconds: int, window: real) {
    && 1 <= seconds && window <= seconds as real
    && (seconds == 1 || (seconds - 1) as real < window)
  }

  ghost function Clock(start: real, moves: seq<Move>, k: nat): real
    requires k <= |moves|
  {
    if k == 0 then start else Time(moves[k - 1])
  }

  /** What the k-th move needs: time does not run back; an idle replica reads, one that is about to write writes, and
      the set expires when it has outlived its last write. */
  ghost predicate Allowed(start: Shared, moves: seq<Move>, k: nat, limit: nat, window: real)
    requires k < |moves|
  {
    && Clock(start.clock, moves, k) <= Time(moves[k])
    && match moves[k]
       case Read(i, _) => i < |start.replicas| && Doing(moves, k, i, limit, window) == Idle
       case FailRead(i, _, _) => i < |start.replicas| && Doing(moves, k, i, limit, window) == Idle
       case Write(i, _) => i < |start.replicas| && Doing(moves, k, i, limit, window).Pending?
       case FailWrite(i, _, _) => i < |start.replicas| && Doing(moves, k, i, limit, window).Pending?
       case Expire(at) =>
         LastWrite(moves, k).Some? && exists n :: LivesFor(n, window) && LastWrite(moves, k).value + n as real <= at
  }

  /** The state after k moves is the one their telling gives. */
  ghost predicate Told(start: Shared, s: Shared, moves: seq<Move>, k: nat, limit: nat, window: real)
    requires k <= |moves|
  {
    && |s.replicas| == |start.replicas|
    && (forall i :: 0 <= i < |s.replicas| ==> s.replicas[i] == Doing(moves, k, i, limit, window))
    && (forall i :: 0 <= i < |s.replicas| && s.replicas[i].Pending? ==>
          s.replicas[i].score == LastRead(moves, k, i) <= s.clock)
    && s.history == Admissions(moves, k)
    && s.clock == Clock(start.clock, moves, k)
    && (s.expireAt.Some? <==> LastWrite(moves, k).Some?)
    && (s.expireAt.Some? ==> exists n ::
          LivesFor(n, window) && s.expireAt.value == LastWrite(moves, k).value + n as real)
    && SetHolds(s, Stored(moves, k), window)
    && (k > 0 ==> JustPruned(s.zset, moves[k - 1], window))
  }

  /** The set holds the stored hits that still count, and none that was not stored. */
  ghost predicate SetHolds(s: Shared, stored: Hits, window: real) {
    && (forall t :: s.clock <= t ==> InWindow(s.zset, t, window) == InWindow(stored, t, window))
    && (forall h :: h in s.zset ==> h in stored)
    && (forall h :: h in stored ==> h <= s.clock)
  }

  /** A reading removes the hits that have left the window, and so may one whose answer is lost. */
  ghost predicate JustPruned(zset: Hits, m: Move, window: real) {
    m.Read? || (m.FailRead? && m.pruned) ==> forall h :: h in zset ==> Time(m) - h < window
  }

  lemma TimeToLiveLives(window: real)
    ensures LivesFor(TimeToLive(window), window)
    ensures forall n :: LivesFor(n, window) ==> n == TimeToLive(window)
  {
  }

  lemma {:induction false} LegalSnoc(s: Shared, a: seq<Move>, m: Move, limit: nat, window: real)
    ensures Legal(s, a + [m], limit, window) <==> Legal(s, a, limit, window) && Enabled(After(s, a, limit, window), m)
    ensures Legal(s, a + [m], limit, window) ==>
              After(s, a + [m], limit, window) == Next(After(s, a, limit, window), m, limit, window)
    decreases |a|
  {
    if a == [] {
      assert [] + [m] == [m] && [m][1..] == [];
    } else {
      assert (a + [m])[1..] == a[1..] + [m];
      if Enabled(s, a[0]) { LegalSnoc(Next(s, a[0], limit, window), a[1..], m, limit, window); }
    }
  }

  lemma {:induction false} AllLive(hits: Hits, now: real, window: real)
    requires forall h :: h in hits ==> h <= now
    ensures |Live(hits, now, window)| == InWindow(hits, now, window)
  {
    if hits != [] {
      assert hits[0] in hits && forall h :: h in hits[1..] ==> h in hits;
      AllLive(hits[1..], now, window);
    }
  }

  lemma {:induction false} LiveMembers(hits: Hits, now: real, window: real)
    ensures forall h :: h in Live(hits, now, window) <==> h in hits && now - h < window
  {
    if hits != [] {
      LiveMembers(hits[1..], now, window);
      assert hits == [hits[0]] + hits[1..];
    }
  }

  lemma PrunedHolds(s: Shared, after: Shared, stored: Hits, window: real)
    requires SetHolds(s, stored, window) && s.clock <= after.clock
    requires after.zset == s.zset || after.zset == Live(s.zset, after.clock, window)
    ensures SetHolds(after, stored, window)
  {
    forall t | after.clock <= t ensures InWindow(after.zset, t, window) == InWindow(stored, t, window) {
      LiveKeepsWindow(s.zset, after.clock, t, window);
    }
    LiveMembers(s.zset, after.clock, window);
  }

  lemma StoredHolds(s: Shared, after: Shared, stored: Hits, hit: real, window: real)
    requires SetHolds(s, stored, window) && hit <= s.clock <= after.clock && after.zset == s.zset + [hit]
    ensures SetHolds(after, stored + [hit], window)
  {
    forall t | after.clock <= t ensures InWindow(after.zset, t, window) == InWindow(stored + [hit], t, window) {
      InWindowAppend(s.zset, [hit], t, window);
      InWindowAppend(stored, [hit], t, window);
    }
  }

  lemma ReadingCounts(s: Shared, stored: Hits, now: real, window: real)
    requires SetHolds(s, stored, window) && s.clock <= now
    ensures |Live(s.zset, now, window)| == InWindow(stored, now, window)
  {
    assert InWindow(s.zset, now, window) == InWindow(stored, now, window);
    AllLive(s.zset, now, window);
  }

  lemma StepTells(start: Shared, s: Shared, moves: seq<Move>, k: nat, limit: nat, window: real)
    requires k < |moves| && Told(start, s, moves, k, limit, window) && Enabled(s, moves[k])
    ensures Told(start, Next(s, moves[k], limit, window), moves, k + 1, limit, window)
  {
    hide SetHolds, InWindow, Live;
    var m := moves[k];
    var t := Next(s, m, limit, window);
    TimeToLiveLives(window);
    LiveMembers(s.zset, Time(m), window);
    match m {
      case Read(i, now) =>
        ReadingCounts(s, Stored(moves, k), now, window);
        PrunedHolds(s, t, Stored(moves, k), window);
      case Write(i, _) => StoredHolds(s, t, Stored(moves, k), s.replicas[i].score, window);
      case FailRead(_, _, _) => PrunedHolds(s, t, Stored(moves, k), window);
      case FailWrite(i, _, written) =>
        if written { StoredHolds(s, t, Stored(moves, k), s.replicas[i].score, window); }
        else { PrunedHolds(s, t, Stored(moves, k), window); }
      case Expire(_) => NothingStored(t, window);
    }
  }

  lemma NothingStored(s: Shared, window: real)
    requires s.zset == []
    ensures SetHolds(s, [], window)
  {
  }

  lemma AllowedIsEnabled(start: Shared, s: Shared, moves: seq<Move>, k: nat, limit: nat, window: real)
    requires k < |moves| && Told(start, s, moves, k, limit, window)
    ensures Allowed(start, moves, k, limit, window) <==> Enabled(s, moves[k])
  {
    hide SetHolds;
    TimeToLiveLives(window);
  }

  /** After any k moves of N fresh replicas on one server the set holds, of the hits that reached the server since it
      last expired, those that still count; each replica is where its own last call left it, a reading having found
      the window full if and only if as many such hits as the limit lay in it; and the next move is possible exactly
      when its replica and the clock allow it. */
  lemma {:induction false} RunIsTold(start: Shared, moves: seq<Move>, k: nat, limit: nat, window: real)
    requires Fresh(start) && k <= |moves| && Legal(start, moves[..k], limit, window)
    ensures Told(start, After(start, moves[..k], limit, window), moves, k, limit, window)
    ensures k < |moves| ==>
              (Legal(start, moves[..k + 1], limit, window) <==> Allowed(start, moves, k, limit, window))
  {
    hide Told, Allowed, Next, Fresh, Enabled;
    if k == 0 {
      FreshIsTold(start, moves, limit, window);
      assert moves[..0] == [];
    } else {
      assert moves[..k] == moves[..k - 1] + [moves[k - 1]];
      LegalSnoc(start, moves[..k - 1], moves[k - 1], limit, window);
      RunIsTold(start, moves, k - 1, limit, window);
      StepTells(start, After(start, moves[..k - 1], limit, window), moves, k - 1, limit, window);
    }
    if k < |moves| {
      assert moves[..k + 1] == moves[..k] + [moves[k]];
      LegalSnoc(start, moves[..k], moves[k], limit, window);
      AllowedIsEnabled(start, After(start, moves[..k], limit, window), moves, k, limit, window);
    }
  }

  lemma FreshIsTold(start: Shared, moves: seq<Move>, limit: nat, window: real)
    requires Fresh(start)
    ensures Told(start, start, moves, 0, limit, window)
  {
  }

  lemma {:induction false} LiveCounts(hits: Hits, now: real, window: real)
    ensures forall h :: multiset(Live(hits, now, window))[h] == if now - h < window then multiset(hits)[h] else 0
  {
    if hits != [] {
      LiveCounts(hits[1..], now, window);
      assert hits == [hits[0]] + hits[1..];
    }
  }

  /** A reading, and one whose answer is lost after it reached the server, removes exactly the hits that have left the
      window; a write adds the time of its reading, and so does one whose answer is lost after it reached the server;
      a call that does not reach it changes nothing; and the set expires as a whole. */
  lemma SetChangesExactlyBy(s: Shared, m: Move, limit: nat, window: real)
    requires Enabled(s, m)
    ensures var after := Next(s, m, limit, window).zset;
            match m
            case Read(_, now) =>
              forall h :: multiset(after)[h] == if now - h < window then multiset(s.zset)[h] else 0
            case FailRead(_, at, pruned) =>
              if pruned then forall h :: multiset(after)[h] == if at - h < window then multiset(s.zset)[h] else 0
              else after == s.zset
            case Write(i, _) => after == s.zset + [s.replicas[i].score]
            case FailWrite(i, _, written) => after == if written then s.zset + [s.replicas[i].score] else s.zset
            case Expire(_) => after == []
  {
    LiveCounts(s.zset, Time(m), window);
  }
}
