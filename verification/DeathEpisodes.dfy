/** What the death-save audit means: the episodes of a token read off its own events by looking
    ahead, without any state, and the proof that the audit's single pass reports exactly them. */
module DeathEpisodes {
  import opened Text
  import opened DeathAudit

  // ---------------------------------------------------------------- the reference

  /** Saves that belong to an episode of `t` opened just before `ms`: up to the one that closes it,
      or to the next trigger of `t`. */
  ghost function AttemptsAfter(t: string, ms: seq<Meaning>): seq<Attempt> {
    if ms == [] then []
    else match ms[0]
         case Nothing => AttemptsAfter(t, ms[1..])
         case Trigger(ep) => if ep.token == t then [] else AttemptsAfter(t, ms[1..])
         case Save(token, a, effect) =>
           if token != t || effect.Ignored? then AttemptsAfter(t, ms[1..])
           else if effect.Closes? then [a]
           else [a] + AttemptsAfter(t, ms[1..])
  }

  /** How that episode ends. */
  ghost function OutcomeAfter(t: string, ms: seq<Meaning>): Outcome {
    if ms == [] then InProgress
    else match ms[0]
         case Nothing => OutcomeAfter(t, ms[1..])
         case Trigger(ep) => if ep.token == t then InProgress else OutcomeAfter(t, ms[1..])
         case Save(token, _, effect) =>
           if token == t && effect.Closes? then effect.outcome else OutcomeAfter(t, ms[1..])
  }

  ghost function Continued(ep: Episode, ms: seq<Meaning>): Episode {
    ep.(attempts := ep.attempts + AttemptsAfter(ep.token, ms), outcome := OutcomeAfter(ep.token, ms))
  }

  /** One episode for every trigger of `t`, in ledger order. */
  ghost function Episodes(t: string, ms: seq<Meaning>): seq<Episode> {
    if ms == [] then []
    else if ms[0].Trigger? && ms[0].episode.token == t then
      [if ms[0].episode.instantDeath then ms[0].episode else Continued(ms[0].episode, ms[1..])] + Episodes(t, ms[1..])
    else Episodes(t, ms[1..])
  }

  // ---------------------------------------------------------------- ledgers and tokens

  function Meanings(events: seq<Event>): seq<Meaning> {
    if events == [] then [] else [Read(events[0])] + Meanings(events[1..])
  }

  function MeaningStep(p: Pass, m: Meaning): Pass {
    match m
    case Nothing => p
    case Save(token, a, effect) => SaveStep(p, token, a, effect)
    case Trigger(ep) => TriggerStep(p, ep)
  }

  function FoldMeanings(p: Pass, ms: seq<Meaning>): Pass
    decreases ms
  {
    if ms == [] then p else FoldMeanings(MeaningStep(p, ms[0]), ms[1..])
  }

  lemma {:induction false} FoldReadsMeanings(p: Pass, events: seq<Event>)
    ensures Fold(p, events) == FoldMeanings(p, Meanings(events))
    decreases |events|
  {
    if events != [] { FoldReadsMeanings(Step(p, events[0]), events[1..]); }
  }

  /** Episodes of one token, in order. */
  function For(t: string, eps: seq<Episode>): seq<Episode> {
    if eps == [] then []
    else if eps[0].token == t then [eps[0]] + For(t, eps[1..])
    else For(t, eps[1..])
  }

  predicate AboutToken(t: string, m: Meaning) {
    match m
    case Nothing => false
    case Save(token, _, _) => token == t
    case Trigger(ep) => ep.token == t
  }

  /** The sub-ledger of events about one token. */
  function OnlyAbout(t: string, events: seq<Event>): seq<Event> {
    if events == [] then []
    else if AboutToken(t, Read(events[0])) then [events[0]] + OnlyAbout(t, events[1..])
    else OnlyAbout(t, events[1..])
  }

  function WithoutReverted(events: seq<Event>): seq<Event> {
    if events == [] then []
    else if events[0].Event? && events[0].reverted then WithoutReverted(events[1..])
    else [events[0]] + WithoutReverted(events[1..])
  }

  // ---------------------------------------------------------------- distinct triggers

  ghost predicate Unnumbered(eps: seq<Episode>, n: int) {
    eps == [] || (eps[0].trigger != n && Unnumbered(eps[1..], n))
  }

  ghost predicate NoTrigger(ms: seq<Meaning>, n: int) {
    ms == [] || ((ms[0].Trigger? ==> ms[0].episode.trigger != n) && NoTrigger(ms[1..], n))
  }

  /** No two triggers share a sequence id. */
  ghost predicate DistinctTriggers(ms: seq<Meaning>) {
    ms == [] || ((ms[0].Trigger? ==> NoTrigger(ms[1..], ms[0].episode.trigger)) && DistinctTriggers(ms[1..]))
  }

  /** What is yet to come triggers under new numbers only. */
  ghost predicate Unused(ms: seq<Meaning>, eps: seq<Episode>) {
    ms == [] || ((ms[0].Trigger? ==> Unnumbered(eps, ms[0].episode.trigger)) && Unused(ms[1..], eps))
  }

  ghost predicate OpenOk(open: seq<Episode>, entries: seq<Episode>) {
    open == [] ||
    (&& Unnumbered(entries, open[0].trigger) && Unnumbered(open[1..], open[0].trigger)
     && Find(open[1..], open[0].token).None?
     && open[0].outcome.InProgress? && !open[0].instantDeath
     && OpenOk(open[1..], entries))
  }

  ghost predicate Inv(p: Pass, ms: seq<Meaning>) {
    OpenOk(p.open, p.entries) && DistinctTriggers(ms) && Unused(ms, p.open) && Unused(ms, p.entries)
  }

  lemma {:induction false} UnnumberedNotIn(eps: seq<Episode>, ep: Episode)
    requires Unnumbered(eps, ep.trigger)
    ensures ep !in eps
  {
    if eps != [] { UnnumberedNotIn(eps[1..], ep); }
  }

  lemma {:induction false} UnnumberedAppend(eps: seq<Episode>, ep: Episode, n: int)
    ensures Unnumbered(eps + [ep], n) <==> Unnumbered(eps, n) && ep.trigger != n
  {
    if eps == [] {
      assert eps + [ep] == [ep] && [ep][1..] == [];
    } else {
      assert (eps + [ep])[1..] == eps[1..] + [ep];
      UnnumberedAppend(eps[1..], ep, n);
    }
  }

  lemma {:induction false} ForAppend(t: string, eps: seq<Episode>, ep: Episode)
    ensures For(t, eps + [ep]) == For(t, eps) + if ep.token == t then [ep] else []
  {
    if eps == [] {
      assert eps + [ep] == [ep] && [ep][1..] == [];
    } else {
      assert (eps + [ep])[1..] == eps[1..] + [ep];
      ForAppend(t, eps[1..], ep);
    }
  }

  lemma {:induction false} FindFacts(open: seq<Episode>, token: string)
    ensures Find(open, token).Some? ==> Find(open, token).value.token == token && Find(open, token).value in open
    ensures Find(open, token).None? ==> Drop(open, token) == open
    ensures forall n :: Unnumbered(open, n) ==> Unnumbered(Drop(open, token), n)
    ensures forall n :: Find(open, token).Some? && Unnumbered(open, n) ==> Find(open, token).value.trigger != n
  {
    if open != [] && open[0].token != token { FindFacts(open[1..], token); }
  }

  /** Closing a token's episode leaves the others, and its number is new to the entries. */
  lemma {:induction false} DropFacts(open: seq<Episode>, entries: seq<Episode>, token: string, t: string)
    requires OpenOk(open, entries)
    ensures Find(Drop(open, token), t) == if t == token then None else Find(open, t)
    ensures OpenOk(Drop(open, token), entries)
    ensures Find(open, token).Some? ==>
              var ep := Find(open, token).value;
              && Unnumbered(entries, ep.trigger) && Unnumbered(Drop(open, token), ep.trigger)
              && ep.outcome.InProgress? && !ep.instantDeath
  {
    if open != [] && open[0].token != token {
      DropFacts(open[1..], entries, token, t);
      DropFacts(open[1..], entries, token, open[0].token);
      FindFacts(open[1..], token);
    }
  }

  lemma {:induction false} UpdateFacts(open: seq<Episode>, entries: seq<Episode>, ep: Episode, t: string)
    requires OpenOk(open, entries) && Find(open, ep.token).Some?
    requires ep.trigger == Find(open, ep.token).value.trigger && ep.outcome.InProgress? && !ep.instantDeath
    ensures Find(Update(open, ep), t) == if t == ep.token then Some(ep) else Find(open, t)
    ensures OpenOk(Update(open, ep), entries)
    ensures forall n :: Unnumbered(Update(open, ep), n) <==> Unnumbered(open, n)
  {
    if open[0].token != ep.token {
      UpdateFacts(open[1..], entries, ep, t);
      UpdateFacts(open[1..], entries, ep, open[0].token);
    }
  }

  lemma {:induction false} AddEntry(open: seq<Episode>, entries: seq<Episode>, ep: Episode)
    requires OpenOk(open, entries) && Unnumbered(open, ep.trigger)
    ensures OpenOk(open, entries + [ep])
  {
    if open != [] {
      UnnumberedAppend(entries, ep, open[0].trigger);
      AddEntry(open[1..], entries, ep);
    }
  }

  lemma {:induction false} AddOpen(open: seq<Episode>, entries: seq<Episode>, ep: Episode, t: string)
    requires OpenOk(open, entries) && Find(open, ep.token).None? && Unnumbered(open, ep.trigger) &&
             Unnumbered(entries, ep.trigger)
    requires ep.outcome.InProgress? && !ep.instantDeath
    ensures OpenOk(open + [ep], entries)
    ensures Find(open + [ep], t) == if t == ep.token then Some(ep) else Find(open, t)
  {
    if open == [] {
      assert open + [ep] == [ep] && [ep][1..] == [];
    } else {
      assert (open + [ep])[1..] == open[1..] + [ep];
      AddOpen(open[1..], entries, ep, t);
      AddOpen(open[1..], entries, ep, open[0].token);
      UnnumberedAppend(open[1..], ep, open[0].trigger);
    }
  }

  lemma {:induction false} UnusedMore(ms: seq<Meaning>, before: seq<Episode>, after: seq<Episode>, n: int)
    requires Unused(ms, before) && NoTrigger(ms, n)
    requires forall k :: Unnumbered(before, k) && k != n ==> Unnumbered(after, k)
    ensures Unused(ms, after)
  {
    if ms != [] { UnusedMore(ms[1..], before, after, n); }
  }

  lemma {:induction false} UnusedFewer(ms: seq<Meaning>, before: seq<Episode>, after: seq<Episode>)
    requires Unused(ms, before)
    requires forall k :: Unnumbered(before, k) ==> Unnumbered(after, k)
    ensures Unused(ms, after)
  {
    if ms != [] { UnusedFewer(ms[1..], before, after); }
  }

  // ---------------------------------------------------------------- one token's view of the pass

  /** What the rest of the ledger makes of a token's open episode, if any, and of its later triggers. */
  ghost function Tail(current: Option<Episode>, t: string, ms: seq<Meaning>): seq<Episode> {
    match current
    case None => Episodes(t, ms)
    case Some(ep) => [Continued(ep, ms)] + Episodes(t, ms)
  }

  ghost function View(p: Pass, t: string, ms: seq<Meaning>): seq<Episode> {
    For(t, p.entries) + Tail(Find(p.open, t), t, ms)
  }

  lemma ContinueKeepsView(p: Pass, t: string, token: string, a: Attempt, rest: seq<Meaning>)
    requires Inv(p, rest) && Find(p.open, token).Some?
    ensures var next := Find(p.open, token).value.(attempts := Find(p.open, token).value.attempts + [a]);
            var q := Pass(Update(p.open, next), p.entries);
            && Inv(q, rest)
            && Find(q.open, t) == if t == token then Some(next) else Find(p.open, t)
  {
    FindFacts(p.open, token);
    DropFacts(p.open, p.entries, token, t);
    var next := Find(p.open, token).value.(attempts := Find(p.open, token).value.attempts + [a]);
    UpdateFacts(p.open, p.entries, next, t);
    UnusedFewer(rest, p.open, Update(p.open, next));
  }

  lemma CloseKeepsView(p: Pass, t: string, token: string, a: Attempt, outcome: Outcome, rest: seq<Meaning>)
    requires Inv(p, rest) && Find(p.open, token).Some?
    ensures var next := Find(p.open, token).value.(attempts := Find(p.open, token).value.attempts + [a],
                                                   outcome := outcome);
            var q := Pass(Drop(p.open, token), p.entries + [next]);
            && Inv(q, rest)
            && Find(q.open, t) == (if t == token then None else Find(p.open, t))
            && For(t, q.entries) == For(t, p.entries) + if t == token then [next] else []
  {
    FindFacts(p.open, token);
    DropFacts(p.open, p.entries, token, t);
    var next := Find(p.open, token).value.(attempts := Find(p.open, token).value.attempts + [a], outcome := outcome);
    CloseKeepsInv(p, next, rest);
    ForAppend(t, p.entries, next);
  }

  /** What one save adds to the episode it belongs to. */
  lemma ContinuedStep(ep: Episode, a: Attempt, effect: Effect, rest: seq<Meaning>)
    ensures Continued(ep, [Save(ep.token, a, effect)] + rest) ==
            match effect
            case Ignored => Continued(ep, rest)
            case Continues => Continued(ep.(attempts := ep.attempts + [a]), rest)
            case Closes(outcome) => ep.(attempts := ep.attempts + [a], outcome := outcome)
  {
    assert ([Save(ep.token, a, effect)] + rest)[1..] == rest;
    assert ep.attempts + ([a] + AttemptsAfter(ep.token, rest)) == ep.attempts + [a] + AttemptsAfter(ep.token, rest);
  }

  /** Events about others say nothing to an episode. */
  lemma ContinuedSkips(ep: Episode, m: Meaning, rest: seq<Meaning>)
    requires !AboutToken(ep.token, m)
    ensures Continued(ep, [m] + rest) == Continued(ep, rest)
  {
    assert ([m] + rest)[1..] == rest;
  }

  lemma TailSkips(current: Option<Episode>, t: string, m: Meaning, rest: seq<Meaning>)
    requires !AboutToken(t, m) && (current.Some? ==> current.value.token == t)
    ensures Tail(current, t, [m] + rest) == Tail(current, t, rest)
  {
    assert ([m] + rest)[1..] == rest;
    if current.Some? { ContinuedSkips(current.value, m, rest); }
  }

  /** What a save does to a token's open episode. */
  ghost function AfterSave(current: Option<Episode>, a: Attempt, effect: Effect): Option<Episode> {
    match current
    case None => None
    case Some(ep) =>
      match effect
      case Ignored => Some(ep)
      case Continues => Some(ep.(attempts := ep.attempts + [a]))
      case Closes(_) => None
  }

  /** What a save adds to a token's entries. */
  ghost function ClosedBySave(current: Option<Episode>, a: Attempt, effect: Effect): seq<Episode> {
    if current.Some? && effect.Closes?
    then [current.value.(attempts := current.value.attempts + [a], outcome := effect.outcome)]
    else []
  }

  /** The pass at a save. */
  lemma SaveSteps(p: Pass, t: string, token: string, a: Attempt, effect: Effect, rest: seq<Meaning>)
    requires Inv(p, rest)
    ensures Inv(SaveStep(p, token, a, effect), rest)
    ensures Find(SaveStep(p, token, a, effect).open, t) ==
            if t == token then AfterSave(Find(p.open, t), a, effect) else Find(p.open, t)
    ensures For(t, SaveStep(p, token, a, effect).entries) ==
            For(t, p.entries) + if t == token then ClosedBySave(Find(p.open, t), a, effect) else []
  {
    hide Inv, For, Find, Drop, Update;
    assert For(t, p.entries) + [] == For(t, p.entries);
    if Find(p.open, token).Some? {
      if effect.Continues? { ContinueKeepsView(p, t, token, a, rest); }
      if effect.Closes? { CloseKeepsView(p, t, token, a, effect.outcome, rest); }
    }
  }

  /** The look-ahead at a save. */
  lemma TailAtSave(current: Option<Episode>, t: string, token: string, a: Attempt, effect: Effect, rest: seq<Meaning>)
    requires current.Some? ==> current.value.token == t
    ensures Tail(current, t, [Save(token, a, effect)] + rest) ==
            if t == token then ClosedBySave(current, a, effect) + Tail(AfterSave(current, a, effect), t, rest)
            else Tail(current, t, rest)
  {
    var m := Save(token, a, effect);
    assert ([m] + rest)[1..] == rest;
    if t != token {
      TailSkips(current, t, m, rest);
    } else if current.Some? {
      ContinuedStep(current.value, a, effect, rest);
    }
  }

  lemma SaveKeepsView(p: Pass, t: string, token: string, a: Attempt, effect: Effect, rest: seq<Meaning>)
    requires Inv(p, rest)
    ensures Inv(SaveStep(p, token, a, effect), rest)
    ensures View(SaveStep(p, token, a, effect), t, rest) == View(p, t, [Save(token, a, effect)] + rest)
  {
    hide Inv, For, Find, SaveStep, Tail, AfterSave, ClosedBySave;
    FindFacts(p.open, t);
    SaveSteps(p, t, token, a, effect, rest);
    TailAtSave(Find(p.open, t), t, token, a, effect, rest);
  }

  /** Moving a token's open episode to the entries keeps the pass in order. */
  lemma CloseKeepsInv(p: Pass, closed: Episode, rest: seq<Meaning>)
    requires OpenOk(p.open, p.entries) && DistinctTriggers(rest) && Unused(rest, p.open) && Unused(rest, p.entries)
    requires Find(p.open, closed.token).Some? && closed.trigger == Find(p.open, closed.token).value.trigger
    ensures Inv(Pass(Drop(p.open, closed.token), p.entries + [closed]), rest)
  {
    DropFacts(p.open, p.entries, closed.token, closed.token);
    FindFacts(p.open, closed.token);
    AddEntry(Drop(p.open, closed.token), p.entries, closed);
    UnusedFewer(rest, p.open, Drop(p.open, closed.token));
    BothUnused(rest, p.open, p.entries, closed);
  }

  lemma {:induction false} BothUnused(ms: seq<Meaning>, open: seq<Episode>, entries: seq<Episode>, ep: Episode)
    requires Unused(ms, open) && Unused(ms, entries)
    requires forall n :: Unnumbered(open, n) ==> ep.trigger != n
    ensures Unused(ms, entries + [ep])
  {
    if ms != [] {
      BothUnused(ms[1..], open, entries, ep);
      if ms[0].Trigger? { UnnumberedAppend(entries, ep, ms[0].episode.trigger); }
    }
  }

  /** A trigger's first half: the token's open episode, if any, becomes an entry in progress. */
  lemma PriorKeepsView(p: Pass, t: string, ep: Episode, rest: seq<Meaning>) returns (q: Pass)
    requires Inv(p, [Trigger(ep)] + rest)
    ensures q.open == Drop(p.open, ep.token)
    ensures var prior := Find(p.open, ep.token);
            q.entries ==
            if prior.Some? && prior.value !in p.entries then p.entries + [prior.value.(outcome := InProgress)]
            else p.entries
    ensures Inv(q, rest) && Find(q.open, ep.token).None?
    ensures Unnumbered(q.open, ep.trigger) && Unnumbered(q.entries, ep.trigger)
    ensures For(t, q.entries) == For(t, p.entries) +
            (if t == ep.token && Find(p.open, t).Some? then [Find(p.open, t).value] else [])
    ensures t != ep.token ==> Find(q.open, t) == Find(p.open, t)
  {
    assert ([Trigger(ep)] + rest)[1..] == rest;
    var prior := Find(p.open, ep.token);
    FindFacts(p.open, ep.token);
    DropFacts(p.open, p.entries, ep.token, t);
    DropFacts(p.open, p.entries, ep.token, ep.token);
    q := Pass(Drop(p.open, ep.token), p.entries);
    if prior.Some? {
      UnnumberedNotIn(p.entries, prior.value);
      var closed := prior.value.(outcome := InProgress);
      assert closed == prior.value;
      CloseKeepsInv(p, closed, rest);
      ForAppend(t, p.entries, closed);
      UnnumberedAppend(p.entries, closed, ep.trigger);
      q := Pass(q.open, p.entries + [closed]);
    } else {
      UnusedFewer(rest, p.open, q.open);
    }
  }

  /** A trigger's second half: a new entry for an instant death, a new open episode otherwise. */
  lemma OpenKeepsView(q: Pass, t: string, ep: Episode, rest: seq<Meaning>) returns (r: Pass)
    requires Inv(q, rest) && Find(q.open, ep.token).None? && NoTrigger(rest, ep.trigger)
    requires Unnumbered(q.open, ep.trigger) && Unnumbered(q.entries, ep.trigger)
    requires !ep.instantDeath ==> ep.outcome.InProgress?
    ensures r == if ep.instantDeath then Pass(q.open, q.entries + [ep]) else Pass(q.open + [ep], q.entries)
    ensures Inv(r, rest)
    ensures For(t, r.entries) == For(t, q.entries) + (if t == ep.token && ep.instantDeath then [ep] else [])
    ensures Find(r.open, t) == if t == ep.token then (if ep.instantDeath then None else Some(ep)) else Find(q.open, t)
  {
    if ep.instantDeath {
      AddEntry(q.open, q.entries, ep);
      AddedEntry(rest, q.entries, ep);
      ForAppend(t, q.entries, ep);
      r := Pass(q.open, q.entries + [ep]);
    } else {
      AddOpen(q.open, q.entries, ep, t);
      AddedEntry(rest, q.open, ep);
      r := Pass(q.open + [ep], q.entries);
    }
  }

  /** A trigger of a token ends its open episode and starts the next one. */
  lemma TailTrigger(current: Option<Episode>, ep: Episode, rest: seq<Meaning>)
    requires current.Some? ==> current.value.token == ep.token && current.value.outcome.InProgress?
    requires !ep.instantDeath ==> ep.attempts == []
    ensures Tail(current, ep.token, [Trigger(ep)] + rest) ==
            (if current.Some? then [current.value] else []) +
            (if ep.instantDeath then [ep] + Episodes(ep.token, rest) else Tail(Some(ep), ep.token, rest))
  {
    var ms := [Trigger(ep)] + rest;
    assert ms[1..] == rest;
    if current.Some? {
      assert current.value.attempts + [] == current.value.attempts;
      assert Continued(current.value, ms) == current.value;
    }
  }

  lemma TriggerKeepsView(p: Pass, t: string, ep: Episode, rest: seq<Meaning>)
    requires Inv(p, [Trigger(ep)] + rest) && (!ep.instantDeath ==> ep.outcome.InProgress? && ep.attempts == [])
    ensures Inv(TriggerStep(p, ep), rest)
    ensures View(TriggerStep(p, ep), t, rest) == View(p, t, [Trigger(ep)] + rest)
  {
    assert ([Trigger(ep)] + rest)[1..] == rest;
    FindFacts(p.open, t);
    DropFacts(p.open, p.entries, t, t);
    var q := PriorKeepsView(p, t, ep, rest);
    var r := OpenKeepsView(q, t, ep, rest);
    assert r == TriggerStep(p, ep);
    var base := For(t, p.entries);
    if t == ep.token {
      TailTrigger(Find(p.open, t), ep, rest);
      var prior := if Find(p.open, t).Some? then [Find(p.open, t).value] else [];
      if ep.instantDeath {
        Regroup(base, prior, [ep], Episodes(t, rest));
      } else {
        Regroup(base, prior, [], Tail(Some(ep), t, rest));
      }
    } else {
      TailSkips(Find(p.open, t), t, Trigger(ep), rest);
      Regroup(base, [], [], Tail(Find(p.open, t), t, rest));
    }
  }

  lemma Regroup<T>(a: seq<T>, b: seq<T>, c: seq<T>, d: seq<T>)
    ensures a + b + c + d == a + (b + (c + d))
    ensures [] + d == d && a + [] == a
  {
  }

  lemma {:induction false} AddedEntry(ms: seq<Meaning>, eps: seq<Episode>, ep: Episode)
    requires Unused(ms, eps) && NoTrigger(ms, ep.trigger)
    ensures Unused(ms, eps + [ep])
  {
    if ms != [] {
      AddedEntry(ms[1..], eps, ep);
      if ms[0].Trigger? { UnnumberedAppend(eps, ep, ms[0].episode.trigger); }
    }
  }

  lemma {:induction false} DrainFor(open: seq<Episode>, entries: seq<Episode>, t: string)
    requires OpenOk(open, entries)
    ensures For(t, Drain(open, entries)) == For(t, entries) +
            (if Find(open, t).Some? then [Find(open, t).value] else [])
    decreases |open|
  {
    if open != [] {
      UnnumberedNotIn(entries, open[0]);
      ForAppend(t, entries, open[0]);
      AddEntry(open[1..], entries, open[0]);
      DrainFor(open[1..], entries + [open[0]], t);
    }
  }

  /** Every meaning comes from an event, so a trigger that does not kill starts fresh. */
  ghost predicate Natural(ms: seq<Meaning>) {
    ms == [] || ((ms[0].Trigger? && !ms[0].episode.instantDeath ==>
                  ms[0].episode.outcome.InProgress? && ms[0].episode.attempts == [])
                 && Natural(ms[1..]))
  }

  lemma {:induction false} PassShowsView(p: Pass, t: string, ms: seq<Meaning>)
    requires Inv(p, ms) && Natural(ms)
    ensures var q := FoldMeanings(p, ms); For(t, Drain(q.open, q.entries)) == View(p, t, ms)
    decreases |ms|
  {
    if ms == [] {
      DrainFor(p.open, p.entries, t);
      FindFacts(p.open, t);
      if Find(p.open, t).Some? {
        var ep := Find(p.open, t).value;
        DropFacts(p.open, p.entries, t, t);
        assert ep.attempts + [] == ep.attempts;
        assert Continued(ep, []) == ep;
      }
    } else {
      assert ms == [ms[0]] + ms[1..];
      match ms[0] {
        case Nothing => assert View(p, t, ms) == View(p, t, ms[1..]);
        case Save(token, a, effect) => SaveKeepsView(p, t, token, a, effect, ms[1..]);
        case Trigger(ep) => TriggerKeepsView(p, t, ep, ms[1..]);
      }
      PassShowsView(MeaningStep(p, ms[0]), t, ms[1..]);
    }
  }

  // ---------------------------------------------------------------- the theorems

  /** No two qualifying triggers of the ledger share a sequence id. */
  ghost predicate DistinctLedger(events: seq<Event>) {
    DistinctTriggers(Meanings(events))
  }

  lemma {:induction false} MeaningsNatural(events: seq<Event>)
    ensures Natural(Meanings(events)) && Unused(Meanings(events), [])
  {
    if events != [] { MeaningsNatural(events[1..]); }
  }

  /** The audit of any ledger reports, for each token, exactly the episodes the token's own events tell:
      one per trigger in ledger order, with every save from the trigger to the closing save or the next
      trigger of that token, and nothing else. */
  lemma AuditIsEpisodes(events: seq<Event>, t: string)
    requires DistinctLedger(events)
    ensures For(t, Entries(events)) == Episodes(t, Meanings(events))
  {
    FoldReadsMeanings(Start, events);
    MeaningsNatural(events);
    PassShowsView(Start, t, Meanings(events));
  }

  /** The saves of `t` that count and meet an open episode of it, in ledger order; `open` tells whether one is
      open before the first event. */
  ghost function SavesMet(t: string, ms: seq<Meaning>, open: bool): seq<Attempt> {
    if ms == [] then []
    else match ms[0]
         case Nothing => SavesMet(t, ms[1..], open)
         case Trigger(ep) => SavesMet(t, ms[1..], if ep.token == t then !ep.instantDeath else open)
         case Save(token, a, effect) =>
           if token != t || !open || effect.Ignored? then SavesMet(t, ms[1..], open)
           else [a] + SavesMet(t, ms[1..], !effect.Closes?)
  }

  /** The attempts of some entries, one entry after the other. */
  ghost function AttemptsOf(eps: seq<Episode>): seq<Attempt> {
    if eps == [] then [] else eps[0].attempts + AttemptsOf(eps[1..])
  }

  ghost predicate StartEmpty(ms: seq<Meaning>) {
    ms == [] || ((ms[0].Trigger? ==> ms[0].episode.attempts == []) && StartEmpty(ms[1..]))
  }

  lemma {:induction false} MeaningsStartEmpty(events: seq<Event>)
    ensures StartEmpty(Meanings(events))
  {
    if events != [] { MeaningsStartEmpty(events[1..]); }
  }

  lemma NoneInFront(a: seq<Attempt>, b: seq<Attempt>, c: seq<Attempt>)
    ensures a == [] ==> a + b == b
    ensures a + (b + c) == (a + b) + c
  {
  }

  lemma FirstAttempts(ep: Episode, later: seq<Episode>)
    ensures AttemptsOf([ep] + later) == ep.attempts + AttemptsOf(later)
  {
    assert ([ep] + later)[1..] == later;
  }

  lemma {:induction false} EpisodesHoldSaves(t: string, ms: seq<Meaning>)
    requires StartEmpty(ms)
    ensures AttemptsOf(Episodes(t, ms)) == SavesMet(t, ms, false)
    ensures AttemptsAfter(t, ms) + AttemptsOf(Episodes(t, ms)) == SavesMet(t, ms, true)
  {
    if ms != [] {
      var later := AttemptsOf(Episodes(t, ms[1..]));
      EpisodesHoldSaves(t, ms[1..]);
      match ms[0] {
        case Nothing =>
        case Save(token, a, effect) => NoneInFront([a], AttemptsAfter(t, ms[1..]), later);
        case Trigger(ep) =>
          if ep.token == t {
            FirstAttempts(if ep.instantDeath then ep else Continued(ep, ms[1..]), Episodes(t, ms[1..]));
            NoneInFront(ep.attempts, AttemptsAfter(t, ms[1..]), later);
            NoneInFront(ep.attempts, later, []);
            NoneInFront(AttemptsAfter(t, ms), AttemptsOf(Episodes(t, ms)), []);
          }
      }
    }
  }

  /** Each save is recorded once, in one entry: the attempts of a token's entries, one entry after the other,
      are exactly its saves that count and met an open episode, in ledger order. */
  lemma SavesAreRecordedOnce(events: seq<Event>, t: string)
    requires DistinctLedger(events)
    ensures AttemptsOf(For(t, Entries(events))) == SavesMet(t, Meanings(events), false)
  {
    AuditIsEpisodes(events, t);
    MeaningsStartEmpty(events);
    EpisodesHoldSaves(t, Meanings(events));
  }

  lemma {:induction false} EpisodesIgnoreOthers(t: string, events: seq<Event>)
    ensures Episodes(t, Meanings(OnlyAbout(t, events))) == Episodes(t, Meanings(events))
    ensures AttemptsAfter(t, Meanings(OnlyAbout(t, events))) == AttemptsAfter(t, Meanings(events))
    ensures OutcomeAfter(t, Meanings(OnlyAbout(t, events))) == OutcomeAfter(t, Meanings(events))
  {
    if events != [] {
      EpisodesIgnoreOthers(t, events[1..]);
      assert AboutToken(t, Read(events[0])) ==> OnlyAbout(t, events)[1..] == OnlyAbout(t, events[1..]);
    }
  }

  lemma {:induction false} OnlyAboutDistinct(t: string, events: seq<Event>)
    requires DistinctLedger(events)
    ensures DistinctLedger(OnlyAbout(t, events))
    ensures forall n :: NoTrigger(Meanings(events), n) ==> NoTrigger(Meanings(OnlyAbout(t, events)), n)
  {
    if events != [] {
      OnlyAboutDistinct(t, events[1..]);
      assert AboutToken(t, Read(events[0])) ==> OnlyAbout(t, events)[1..] == OnlyAbout(t, events[1..]);
    }
  }

  /** Tokens do not disturb each other: the entries of a token are those of the ledger cut down to
      the events about it, however the ledgers of others are interleaved with it. */
  lemma TokensAreIndependent(events: seq<Event>, t: string)
    requires DistinctLedger(events)
    ensures For(t, Entries(events)) == For(t, Entries(OnlyAbout(t, events)))
  {
    AuditIsEpisodes(events, t);
    OnlyAboutDistinct(t, events);
    AuditIsEpisodes(OnlyAbout(t, events), t);
    EpisodesIgnoreOthers(t, events);
  }

  /** Reverted events leave no trace. */
  lemma {:induction false} RevertedLeaveNoTrace(p: Pass, events: seq<Event>)
    ensures Fold(p, WithoutReverted(events)) == Fold(p, events)
    decreases |events|
  {
    if events != [] {
      RevertedLeaveNoTrace(Step(p, events[0]), events[1..]);
      if !(events[0].Event? && events[0].reverted) {
        assert WithoutReverted(events)[1..] == WithoutReverted(events[1..]);
      }
    }
  }

  lemma RevertedDoNotCount(events: seq<Event>)
    ensures Entries(WithoutReverted(events)) == Entries(events)
  {
    RevertedLeaveNoTrace(Start, events);
  }

  function TriggerCount(ms: seq<Meaning>): nat {
    if ms == [] then 0 else (if ms[0].Trigger? then 1 else 0) + TriggerCount(ms[1..])
  }

  lemma {:induction false} DrainCount(open: seq<Episode>, entries: seq<Episode>)
    requires OpenOk(open, entries)
    ensures |Drain(open, entries)| == |open| + |entries|
    decreases |open|
  {
    if open != [] {
      UnnumberedNotIn(entries, open[0]);
      AddEntry(open[1..], entries, open[0]);
      DrainCount(open[1..], entries + [open[0]]);
    }
  }

  lemma {:induction false} DropCount(open: seq<Episode>, token: string, ep: Episode)
    ensures |Drop(open, token)| == |open| - (if Find(open, token).Some? then 1 else 0)
    ensures |Update(open, ep)| == |open|
  {
    if open != [] {
      DropCount(open[1..], token, ep);
    }
  }

  /** A step keeps the number of episodes, but for a trigger, which adds one. */
  lemma StepCount(p: Pass, m: Meaning, rest: seq<Meaning>)
    requires Inv(p, [m] + rest) && Natural([m])
    ensures Inv(MeaningStep(p, m), rest)
    ensures var q := MeaningStep(p, m); |q.open| + |q.entries| == |p.open| + |p.entries| + (if m.Trigger? then 1 else 0)
  {
    assert ([m] + rest)[1..] == rest;
    match m {
      case Nothing =>
      case Save(token, a, effect) =>
        SaveKeepsView(p, token, token, a, effect, rest);
        if Find(p.open, token).Some? {
          DropCount(p.open, token, Find(p.open, token).value.(attempts := Find(p.open, token).value.attempts + [a]));
        }
      case Trigger(ep) =>
        TriggerKeepsView(p, ep.token, ep, rest);
        DropCount(p.open, ep.token, ep);
        var q := PriorKeepsView(p, ep.token, ep, rest);
    }
  }

  lemma {:induction false} PassCount(p: Pass, ms: seq<Meaning>)
    requires Inv(p, ms) && Natural(ms)
    ensures var q := FoldMeanings(p, ms); |Drain(q.open, q.entries)| == |p.open| + |p.entries| + TriggerCount(ms)
    decreases |ms|
  {
    if ms == [] {
      DrainCount(p.open, p.entries);
    } else {
      assert ms == [ms[0]] + ms[1..];
      StepCount(p, ms[0], ms[1..]);
      PassCount(MeaningStep(p, ms[0]), ms[1..]);
    }
  }

  /** Entries and qualifying unreverted triggers correspond one to one. */
  lemma OneEntryPerTrigger(events: seq<Event>)
    requires DistinctLedger(events)
    ensures |Entries(events)| == TriggerCount(Meanings(events))
  {
    FoldReadsMeanings(Start, events);
    MeaningsNatural(events);
    PassCount(Start, Meanings(events));
  }

  /** Entries that are closed before the drain. */
  function ClosedEntries(events: seq<Event>): seq<Episode> {
    Fold(Start, events).entries
  }

  lemma {:induction false} EntriesOnlyGrow(p: Pass, events: seq<Event>)
    ensures p.entries <= Fold(p, events).entries
    decreases |events|
  {
    if events != [] {
      EntriesOnlyGrow(Step(p, events[0]), events[1..]);
    }
  }

  lemma {:induction false} FoldAppend(p: Pass, a: seq<Event>, b: seq<Event>)
    ensures Fold(p, a + b) == Fold(Fold(p, a), b)
    decreases |a|
  {
    if a == [] {
      assert a + b == b;
    } else {
      assert (a + b)[1..] == a[1..] + b;
      FoldAppend(Step(p, a[0]), a[1..], b);
    }
  }

  lemma {:induction false} DrainKeepsClosed(open: seq<Episode>, entries: seq<Episode>)
    ensures entries <= Drain(open, entries)
    decreases |open|
  {
    if open != [] {
      DrainKeepsClosed(open[1..], if open[0] in entries then entries else entries + [open[0]]);
    }
  }

  /** A longer ledger never rewrites history: what is closed after a prefix is reported first, and
      unchanged, for every extension. No assumption on sequence ids is needed. */
  lemma ClosedEntriesAreStable(events: seq<Event>, later: seq<Event>)
    ensures ClosedEntries(events) <= ClosedEntries(events + later)
    ensures ClosedEntries(events) <= Entries(events + later)
  {
    FoldAppend(Start, events, later);
    EntriesOnlyGrow(Fold(Start, events), later);
    var p := Fold(Start, events + later);
    DrainKeepsClosed(p.open, p.entries);
  }
}
