/** Where the death-save audit (python/vtt_orchestrator/death_audit.py) and its comments part: healing,
    which is said to close an episode, and the instant-death flag, which is said to open one by itself. */
module DeathHealing {
  import opened Text
  import opened DeathAudit
  import opened DeathEpisodes

  // ---------------------------------------------------------------- healing

  /** An event as the comments read it: what it says to the audit, or that it heals a token. */
  datatype Telling = Told(meaning: Meaning) | Healed(token: string)

  function HealedToken(e: Event): Option<string> {
    if e.Event? && !e.reverted && e.eventType == "HEALED" then AsText(Opt(e.payload, "target_id")) else None
  }

  function Tellings(events: seq<Event>): seq<Telling> {
    if events == [] then []
    else
      var healed := HealedToken(events[0]);
      [if healed.Some? then Healed(healed.value) else Told(Read(events[0]))] + Tellings(events[1..])
  }

  /** The code's view: healing says nothing. */
  function Plain(ts: seq<Telling>): seq<Meaning> {
    if ts == [] then [] else [if ts[0].Told? then ts[0].meaning else Nothing] + Plain(ts[1..])
  }

  lemma {:induction false} PlainIsMeanings(events: seq<Event>)
    ensures Plain(Tellings(events)) == Meanings(events)
  {
    if events != [] { PlainIsMeanings(events[1..]); }
  }

  /** Saves of an episode of `t` opened just before `ts`, when healing `t` closes it. */
  ghost function AttemptsUntilHealed(t: string, ts: seq<Telling>): seq<Attempt> {
    if ts == [] then []
    else match ts[0]
         case Healed(token) => if token == t then [] else AttemptsUntilHealed(t, ts[1..])
         case Told(Nothing) => AttemptsUntilHealed(t, ts[1..])
         case Told(Trigger(ep)) => if ep.token == t then [] else AttemptsUntilHealed(t, ts[1..])
         case Told(Save(token, a, effect)) =>
           if token != t || effect.Ignored? then AttemptsUntilHealed(t, ts[1..])
           else if effect.Closes? then [a]
           else [a] + AttemptsUntilHealed(t, ts[1..])
  }

  /** How that episode ends; healed tokens are stabilized. */
  ghost function OutcomeUntilHealed(t: string, ts: seq<Telling>): Outcome {
    if ts == [] then InProgress
    else match ts[0]
         case Healed(token) => if token == t then Stabilized else OutcomeUntilHealed(t, ts[1..])
         case Told(Nothing) => OutcomeUntilHealed(t, ts[1..])
         case Told(Trigger(ep)) => if ep.token == t then InProgress else OutcomeUntilHealed(t, ts[1..])
         case Told(Save(token, _, effect)) =>
           if token == t && effect.Closes? then effect.outcome else OutcomeUntilHealed(t, ts[1..])
  }

  /** The episodes of `t` as the comments have them. */
  ghost function EpisodesWithHealing(t: string, ts: seq<Telling>): seq<Episode> {
    if ts == [] then []
    else if ts[0].Told? && ts[0].meaning.Trigger? && ts[0].meaning.episode.token == t then
      var ep := ts[0].meaning.episode;
      [if ep.instantDeath then ep
       else ep.(attempts := ep.attempts + AttemptsUntilHealed(t, ts[1..]), outcome := OutcomeUntilHealed(t, ts[1..]))]
      + EpisodesWithHealing(t, ts[1..])
    else EpisodesWithHealing(t, ts[1..])
  }

  /** `t` is healed before a save closes its episode and before its next trigger. */
  ghost predicate HealedFirst(t: string, ts: seq<Telling>) {
    && ts != []
    && match ts[0]
       case Healed(token) => token == t || HealedFirst(t, ts[1..])
       case Told(Nothing) => HealedFirst(t, ts[1..])
       case Told(Trigger(ep)) => ep.token != t && HealedFirst(t, ts[1..])
       case Told(Save(token, _, effect)) => !(token == t && effect.Closes?) && HealedFirst(t, ts[1..])
  }

  /** Some episode of `t` that was no instant death is healed before it closes. */
  ghost predicate HealedWhileDying(t: string, ts: seq<Telling>) {
    && ts != []
    && (|| (ts[0].Told? && ts[0].meaning.Trigger? && ts[0].meaning.episode.token == t &&
            !ts[0].meaning.episode.instantDeath
            && HealedFirst(t, ts[1..]))
        || HealedWhileDying(t, ts[1..]))
  }

  /** An outcome comes with the save that brought it. */
  lemma {:induction false} OutcomeHasItsSave(t: string, ms: seq<Meaning>)
    ensures OutcomeAfter(t, ms).Stabilized? ==> AttemptsAfter(t, ms) != []
  {
    if ms != [] { OutcomeHasItsSave(t, ms[1..]); }
  }

  lemma {:induction false} HealingShows(t: string, ts: seq<Telling>)
    ensures !HealedFirst(t, ts) ==>
              AttemptsAfter(t, Plain(ts)) == AttemptsUntilHealed(t, ts) &&
                  OutcomeAfter(t, Plain(ts)) == OutcomeUntilHealed(t, ts)
    ensures HealedFirst(t, ts) ==>
              && OutcomeUntilHealed(t, ts).Stabilized?
              && (OutcomeAfter(t, Plain(ts)).Stabilized? ==>
                  |AttemptsAfter(t, Plain(ts))| > |AttemptsUntilHealed(t, ts)|)
  {
    if ts != [] {
      assert Plain(ts)[1..] == Plain(ts[1..]);
      HealingShows(t, ts[1..]);
      OutcomeHasItsSave(t, Plain(ts[1..]));
      OutcomeHasItsSave(t, Plain(ts));
    }
  }

  lemma SameEpisode(ep: Episode, a: seq<Attempt>, b: seq<Attempt>, x: Outcome, y: Outcome)
    ensures ep.(attempts := ep.attempts + a, outcome := x) == ep.(attempts := ep.attempts + b, outcome := y) <==>
            a == b && x == y
  {
    if ep.attempts + a == ep.attempts + b {
      assert a == (ep.attempts + a)[|ep.attempts|..];
      assert b == (ep.attempts + b)[|ep.attempts|..];
    }
  }

  lemma ListsAgree<T>(x: T, xs: seq<T>, y: T, ys: seq<T>)
    ensures [x] + xs == [y] + ys <==> x == y && xs == ys
  {
    assert ([x] + xs)[0] == x && ([x] + xs)[1..] == xs;
    assert ([y] + ys)[0] == y && ([y] + ys)[1..] == ys;
  }

  lemma {:induction false} EpisodesDifferExactlyWhen(t: string, ts: seq<Telling>)
    ensures Episodes(t, Plain(ts)) == EpisodesWithHealing(t, ts) <==> !HealedWhileDying(t, ts)
  {
    if ts != [] {
      var ms, rest := Plain(ts), ts[1..];
      assert ms[1..] == Plain(rest);
      EpisodesDifferExactlyWhen(t, rest);
      if ts[0].Told? && ts[0].meaning.Trigger? && ts[0].meaning.episode.token == t {
        var ep := ts[0].meaning.episode;
        HealingShows(t, rest);
        SameEpisode(ep, AttemptsAfter(t, Plain(rest)), AttemptsUntilHealed(t, rest), OutcomeAfter(t, Plain(rest)),
                    OutcomeUntilHealed(t, rest));
        ListsAgree(Episodes(t, ms)[0], Episodes(t, Plain(rest)), EpisodesWithHealing(t, ts)[0],
                   EpisodesWithHealing(t, rest));
      }
    }
  }

  /** The audit of a token is what its comments promise, healing included, if and only if no healing of it
      falls between a trigger that is no instant death and the closing save or the token's next trigger. */
  lemma HealingIsMissedExactlyWhen(events: seq<Event>, t: string)
    requires DistinctLedger(events)
    ensures For(t, Entries(events)) == EpisodesWithHealing(t, Tellings(events)) <==>
            !HealedWhileDying(t, Tellings(events))
  {
    AuditIsEpisodes(events, t);
    PlainIsMeanings(events);
    EpisodesDifferExactlyWhen(t, Tellings(events));
  }

  const Dropped := Event(false, Int(1), "DAMAGE_APPLIED", Null,
                         map["target_id" := Str("t"), "hp_remaining" := Int(0), "amount" := Int(5)])
  const Cured := Event(false, Int(2), "HEALED", Null, map["target_id" := Str("t")])
  const Saves := Event(false, Int(3), "DEATH_SAVE_RESOLVED", Str("t"),
                       map["outcome" := Str("PENDING"), "natural_roll" := Int(12)])

  const Dying := Episode("t", 1, "DAMAGE_APPLIED", Null, 1, false, [], InProgress)
  const Attempted := Attempt(3, "success", Some(12), Some("PENDING"))

  lemma ClassifiedSave()
    ensures ClassifySave(3, Saves.payload) == Attempted
  {
  }

  lemma ReadSave()
    ensures Read(Saves) == Save("t", Attempted, Continues) && HealedToken(Saves) == None
  {
    hide ClassifySave, EffectOf;
    PendingContinues();
    ClassifiedSave();
  }

  lemma ReadExample()
    ensures Read(Dropped) == Trigger(Dying) && Read(Cured) == Nothing
    ensures HealedToken(Dropped) == None && HealedToken(Cured) == Some("t")
  {
  }

  lemma TwoMore<T>(a: T, b: T, c: T)
    ensures [a, b, c][1..] == [b, c] && [b, c][1..] == [c] && [c][1..] == []
  {
  }

  lemma MeaningsExample()
    ensures Meanings([Dropped, Cured, Saves]) == [Trigger(Dying), Nothing, Save("t", Attempted, Continues)]
  {
    ReadExample();
    ReadSave();
    hide Read;
    TwoMore(Dropped, Cured, Saves);
    assert Meanings([Saves]) == [Read(Saves)] + Meanings([]);
    assert Meanings([Cured, Saves]) == [Read(Cured)] + Meanings([Saves]);
  }

  lemma FoldExample()
    ensures Fold(Start, [Dropped, Cured, Saves]) == Pass([Dying.(attempts := [Attempted])], [])
  {
    hide Meanings, Fold, Read;
    FoldReadsMeanings(Start, [Dropped, Cured, Saves]);
    MeaningsExample();
    var save := Save("t", Attempted, Continues);
    TwoMore(Trigger(Dying), Nothing, save);
    var open := Pass([Dying], []);
    assert MeaningStep(Start, Trigger(Dying)) == open;
    assert [] + [Attempted] == [Attempted];
    assert FoldMeanings(open, [save]) == FoldMeanings(MeaningStep(open, save), []);
    assert FoldMeanings(open, [Nothing, save]) == FoldMeanings(open, [save]);
  }

  lemma TellingsExample()
    ensures Tellings([Dropped, Cured, Saves]) ==
            [Told(Trigger(Dying)), Healed("t"), Told(Save("t", Attempted, Continues))]
  {
    ReadExample();
    ReadSave();
    hide Read, HealedToken;
    TwoMore(Dropped, Cured, Saves);
    assert Tellings([Saves]) == [Told(Save("t", Attempted, Continues))] + Tellings([]);
    assert Tellings([Cured, Saves]) == [Healed("t")] + Tellings([Saves]);
  }

  /** Until the healing nothing was rolled, and it stabilizes. */
  lemma HealedAtOnce(rest: seq<Telling>)
    requires rest == [Healed("t"), Told(Save("t", Attempted, Continues))]
    ensures EpisodesWithHealing("t", [Told(Trigger(Dying))] + rest) == [Dying.(outcome := Stabilized)]
  {
    assert AttemptsUntilHealed("t", rest) == [] && OutcomeUntilHealed("t", rest) == Stabilized;
    TwoMore(Told(Trigger(Dying)), rest[0], rest[1]);
    assert EpisodesWithHealing("t", rest[1..]) == EpisodesWithHealing("t", []);
    assert EpisodesWithHealing("t", rest) == [];
    assert Dying.attempts + [] == [];
    assert ([Told(Trigger(Dying))] + rest)[1..] == rest;
  }

  /** A token drops, is healed and rolls a save: the audit reports it as still dying, with the save. */
  lemma HealedTokenStillDies()
    ensures Entries([Dropped, Cured, Saves]) == [Dying.(attempts := [Attempted])]
    ensures EpisodesWithHealing("t", Tellings([Dropped, Cured, Saves])) == [Dying.(outcome := Stabilized)]
  {
    hide Fold, Tellings, EpisodesWithHealing;
    FoldExample();
    assert Drain([Dying.(attempts := [Attempted])], []) == [Dying.(attempts := [Attempted])];
    TellingsExample();
    var rest := [Healed("t"), Told(Save("t", Attempted, Continues))];
    HealedAtOnce(rest);
    assert [Told(Trigger(Dying))] + rest == [Told(Trigger(Dying)), Healed("t"), Told(Save("t", Attempted, Continues))];
  }

  lemma PendingContinues()
    ensures EffectOf(Attempt(3, "success", Some(12), Some("PENDING"))) == Continues
  {
    assert Upper("PENDING")[0] == 'P';
  }

  // ---------------------------------------------------------------- the instant-death flag

  /** Positive damage that lands the target at 0 hit points. */
  predicate LandsAtZero(e: Event)
    requires e.Event?
  {
    HpAfterDamage(e).Some? && HpAfterDamage(e).value <= 0 && DamageAmount(e).Some? && DamageAmount(e).value > 0
  }

  /** A trigger as the comments define it: such damage, or the flag. */
  predicate DocumentedTrigger(e: Event) {
    && e.Event? && !e.reverted && IsTriggering(e.eventType)
    && AsText(Opt(e.payload, "target_id")).Some? && AsInt(e.sequenceId).Some?
    && (LandsAtZero(e) || TriggerInstantDeath(e))
  }

  /** The code and its comment agree on an event if and only if the flag comes with such damage. */
  lemma FlagTriggersExactlyWhen(e: Event)
    ensures (Read(e).Trigger? <==> DocumentedTrigger(e)) <==>
            (DocumentedTrigger(e) && TriggerInstantDeath(e) ==> LandsAtZero(e))
  {
  }

  /** Instant death with five hit points left opens no episode. */
  lemma FlagAloneIsNoTrigger()
    ensures var e := Event(false, Int(1), "DAMAGE_APPLIED", Null,
                           map["target_id" := Str("t"), "hp_remaining" := Int(5), "amount" := Int(3),
                               "instant_death" := Bool(true)]);
            DocumentedTrigger(e) && Entries([e]) == []
  {
  }
}
