/** The limiter of SlidingWindow told from outside: what a check answers, counted on the earlier verdicts alone, and
    which keys an admitted check leaves in the table. */
module WindowVerdicts {
  import opened SlidingWindow

  /** The hit is the oldest of those within the window. */
  ghost predicate OldestIn(oldest: real, hits: Hits, now: real, window: real) {
    && oldest in hits && now - window < oldest
    && forall t :: t in hits && now - window < t ==> oldest <= t
  }

  lemma {:induction false} FirstIsOldest(hits: Hits, clock: real, now: real, window: real)
    requires Chronological(hits, clock) && Live(hits, now, window) != []
    ensures OldestIn(Live(hits, now, window)[0], hits, now, window)
  {
    if now - hits[0] >= window {
      FirstIsOldest(hits[1..], clock, now, window);
      assert hits == [hits[0]] + hits[1..];
    } else {
      forall t | t in hits ensures hits[0] <= t {
        var i :| 0 <= i < |hits| && hits[i] == t;
      }
    }
  }

  lemma VerdictOnHits(history: Table, clock: real, key: Key, now: real)
    requires HistorySafe(history, clock) && clock <= now
    ensures FullVerdict(history, key, now) == Admitted <==>
            InWindow(Lookup(history, key), now, Window(key.bucket)) < Limit(key.bucket)
    ensures FullVerdict(history, key, now) != Admitted ==>
              exists oldest :: OldestIn(oldest, Lookup(history, key), now, Window(key.bucket)) &&
                               var r := FullVerdict(history, key, now).seconds;
                               (r - 1) as real <= oldest + Window(key.bucket) - now < r as real
  {
    var w, hits := Window(key.bucket), Lookup(history, key);
    assert Chronological(hits, clock);
    WindowIsLive(hits, clock, now, now, w);
    if |Live(hits, now, w)| >= Limit(key.bucket) {
      FirstIsOldest(hits, clock, now, w);
      var oldest := Live(hits, now, w)[0];
      assert OldestIn(oldest, hits, now, w);
    }
  }

  /** After any run a check is admitted if and only if fewer hits of its key than the limit were admitted within the
      window that ends now; otherwise it is told the whole seconds, rounded up from what is left, until the oldest of
      them leaves the window, one second more if that is a whole number. */
  lemma AdmittedExactlyWhen(clock: real, before: seq<Event>, key: Key, now: real, maxKeys: nat)
    requires Nondecreasing(clock, before) && ClockAfter(clock, before) <= now
    ensures var verdict := Step(TableAfter(map[], before), Check(key, now, maxKeys)).0;
            var hits, w := AdmittedTimes(map[], before, key), Window(key.bucket);
            if InWindow(hits, now, w) < Limit(key.bucket) then verdict == [Admitted]
            else
              && |verdict| == 1 && verdict[0].RetryAfter?
              && exists oldest :: OldestIn(oldest, hits, now, w) &&
                   (verdict[0].seconds - 1) as real <= oldest + w - now < verdict[0].seconds as real
  {
    hide Agree, HistorySafe, TableAfter, HistoryAfter, AdmittedTimes, Live, FullVerdict, OldestIn;
    var history, later := HistoryAfter(map[], before), ClockAfter(clock, before);
    StartAgrees(clock);
    RunAgrees(map[], map[], clock, before);
    AdmittedIsHistory(map[], map[], clock, before, key);
    CheckAgrees(TableAfter(map[], before), history, later, key, now, maxKeys);
    VerdictOnHits(history, later, key, now);
    assert Lookup(history, key) == AdmittedTimes(map[], before, key);
  }

  // ---------------------------------------------------------------- the table after a check

  ghost predicate HitWithin(hits: Hits, now: real, seconds: real) {
    exists t :: t in hits && now - t <= seconds
  }

  lemma {:induction false} LatestIsLast(hits: Hits)
    requires hits != []
    ensures Latest(hits) in hits && forall t :: t in hits ==> t <= Latest(hits)
  {
    assert hits == [hits[0]] + hits[1..];
    if |hits| > 1 { LatestIsLast(hits[1..]); }
  }

  lemma StaleExactlyWhen(key: Key, hits: Hits, now: real)
    ensures Stale(key, hits, now) <==> !HitWithin(hits, now, 2.0 * Window(key.bucket))
  {
    if hits != [] { LatestIsLast(hits); }
  }

  lemma {:induction false} LiveMembers(hits: Hits, now: real, window: real, t: real)
    ensures t in Live(hits, now, window) <==> t in hits && now - t < window
  {
    if hits != [] { LiveMembers(hits[1..], now, window, t); }
  }

  /** A refused check leaves the table as it was. An admitted one records its hit beside those within the window
      and, if the table then has more keys than the cap, drops exactly the keys without a hit in the last two windows;
      every other key keeps its hits. */
  lemma KeysLeftExactly(table: Table, key: Key, now: real, maxKeys: nat)
    ensures var (verdicts, after) := Step(table, Check(key, now, maxKeys));
            if verdicts != [Admitted] then after == table
            else
              && (forall k :: k in after <==>
                    k == key || (k in table && (|table.Keys + {key}| <= maxKeys ||
                                                HitWithin(table[k], now, 2.0 * Window(k.bucket)))))
              && (forall k :: k in after && k != key ==> after[k] == table[k])
              && forall t :: t in after[key] <==>
                   t == now || (key in table && t in table[key] && now - t < Window(key.bucket))
  {
    hide Swept, HitWithin, Live;
    var own := Live(Lookup(table, key), now, Window(key.bucket)) + [now];
    var grown := table[key := own];
    assert grown.Keys == table.Keys + {key};
    JustHit(own, now, 2.0 * Window(key.bucket));
    SweptExactly(grown, now);
    forall t ensures t in own <==> t == now || (key in table && t in table[key] && now - t < Window(key.bucket)) {
      LiveMembers(Lookup(table, key), now, Window(key.bucket), t);
    }
  }

  lemma SweptExactly(table: Table, now: real)
    ensures forall k :: k in Swept(table, now) <==> k in table && HitWithin(table[k], now, 2.0 * Window(k.bucket))
    ensures forall k :: k in Swept(table, now) ==> Swept(table, now)[k] == table[k]
  {
    hide Stale, HitWithin;
    forall k | k in table ensures Stale(k, table[k], now) <==> !HitWithin(table[k], now, 2.0 * Window(k.bucket)) {
      StaleExactlyWhen(k, table[k], now);
    }
  }

  lemma JustHit(hits: Hits, now: real, seconds: real)
    requires hits != [] && hits[|hits| - 1] == now && seconds >= 0.0
    ensures HitWithin(hits, now, seconds)
  {
    assert now in hits;
  }
}
