/** What the audit reads in an event and reports of an episode (python/vtt_orchestrator/death_audit.py), said of
    the event's own fields and labels. */
module DeathEvents {
  import opened Text
  import opened DeathAudit
  import opened DeathEpisodes

  // ---------------------------------------------------------------- fields of an event

  /** A whole number under a key; truth values count as 0 and 1. */
  ghost predicate HoldsNumber(payload: map<string, Json>, key: string, n: int) {
    key in payload && (payload[key] == Int(n) || (payload[key] == Bool(true) && n == 1)
                       || (payload[key] == Bool(false) && n == 0))
  }

  ghost predicate HoldsText(payload: map<string, Json>, key: string, t: string) {
    key in payload && payload[key] == Str(t)
  }

  /** Set, and not to anything JSON counts as false. */
  ghost predicate HoldsTruth(payload: map<string, Json>, key: string) {
    key in payload && payload[key] !in [Null, Bool(false), Int(0), Str(""), Other(false)]
  }

  /** Where each damage-shaped event keeps the hit points left, the damage and its instant-death flag, if any. */
  ghost predicate Shape(eventType: string, hp: string, damage: string, flag: string) {
    || (eventType == "DAMAGE_APPLIED" && hp == "hp_remaining" && damage == "amount" && flag == "instant_death")
    || (eventType == "ATTACK_RESOLVED" && hp == "target_hp_remaining" && damage == "total_damage"
        && flag == "target_is_dead")
    || (eventType == "SPELL_CAST" && hp == "target_hp_remaining" && damage == "damage_total" && flag == "")
  }

  /** Token `t` is dropped by this event, numbered `n`: positive damage leaves it no hit points. */
  ghost predicate Drops(e: Event, t: string, n: int, instant: bool) {
    && e.Event? && !e.reverted
    && HoldsText(e.payload, "target_id", t) && HoldsNumber(map["sequence_id" := e.sequenceId], "sequence_id", n)
    && exists hp, damage, flag ::
         && Shape(e.eventType, hp, damage, flag)
         && (exists left :: HoldsNumber(e.payload, hp, left) && left <= 0)
         && (exists done :: HoldsNumber(e.payload, damage, done) && done > 0)
         && (instant <==> flag != "" && HoldsTruth(e.payload, flag))
  }

  lemma NumberIsHeld(payload: map<string, Json>, key: string, n: int)
    ensures HoldsNumber(payload, key, n) <==> AsInt(Opt(payload, key)) == Some(n)
  {
  }

  lemma NumbersAreHeld(payload: map<string, Json>, key: string)
    ensures forall n :: HoldsNumber(payload, key, n) <==> AsInt(Opt(payload, key)) == Some(n)
  {
  }

  lemma TruthIsHeld(payload: map<string, Json>, key: string)
    ensures HoldsTruth(payload, key) <==> Truthy(Opt(payload, key))
  {
  }

  lemma SequenceIsHeld(e: Event, n: int)
    requires e.Event?
    ensures HoldsNumber(map["sequence_id" := e.sequenceId], "sequence_id", n) <==> AsInt(e.sequenceId) == Some(n)
  {
    NumberIsHeld(map["sequence_id" := e.sequenceId], "sequence_id", n);
  }

  lemma HitPointsAreHeld(e: Event, hp: string, damage: string, flag: string)
    requires e.Event? && Shape(e.eventType, hp, damage, flag)
    ensures (exists left :: HoldsNumber(e.payload, hp, left) && left <= 0) <==>
            HpAfterDamage(e).Some? && HpAfterDamage(e).value <= 0
    ensures (exists done :: HoldsNumber(e.payload, damage, done) && done > 0) <==>
            DamageAmount(e).Some? && DamageAmount(e).value > 0
    ensures (flag != "" && HoldsTruth(e.payload, flag)) <==> TriggerInstantDeath(e)
  {
    NumbersAreHeld(e.payload, hp);
    NumbersAreHeld(e.payload, damage);
    TruthIsHeld(e.payload, flag);
    if HpAfterDamage(e).Some? { assert HoldsNumber(e.payload, hp, HpAfterDamage(e).value); }
    if DamageAmount(e).Some? { assert HoldsNumber(e.payload, damage, DamageAmount(e).value); }
  }

  lemma ShapeIsTriggering(e: Event)
    requires e.Event?
    ensures IsTriggering(e.eventType) <==> exists hp, damage, flag :: Shape(e.eventType, hp, damage, flag)
  {
    if IsTriggering(e.eventType) {
      assert || Shape(e.eventType, "hp_remaining", "amount", "instant_death")
             || Shape(e.eventType, "target_hp_remaining", "total_damage", "target_is_dead")
             || Shape(e.eventType, "target_hp_remaining", "damage_total", "");
    }
  }

  /** An event starts an episode exactly when it drops its target, and then the episode is that token's, numbered
      and typed like the event, without saves, and over at once only if the event says the death was instant. */
  lemma TriggersExactlyWhen(e: Event, ep: Episode)
    ensures Read(e) == Trigger(ep) <==>
              && Drops(e, ep.token, ep.trigger, ep.instantDeath)
              && ep == Episode(ep.token, ep.trigger, e.eventType, e.actorId, ep.trigger, ep.instantDeath, [],
                               if ep.instantDeath then Died else InProgress)
  {
    if e.Event? {
      SequenceIsHeld(e, ep.trigger);
      ShapeIsTriggering(e);
      forall hp, damage, flag | Shape(e.eventType, hp, damage, flag) {
        HitPointsAreHeld(e, hp, damage, flag);
      }
    }
  }

  // ---------------------------------------------------------------- saves

  /** The token a save event is about: its own actor, or else the one in its payload. */
  ghost predicate SaveOf(e: Event, t: string, n: int) {
    && e.Event? && !e.reverted && e.eventType == "DEATH_SAVE_RESOLVED"
    && (e.actorId == Str(t) || (!e.actorId.Str? && HoldsText(e.payload, "actor_id", t)))
    && HoldsNumber(map["sequence_id" := e.sequenceId], "sequence_id", n)
  }

  /** The kind of a save by its word and natural roll. */
  ghost predicate KindTold(kind: string, outcome: Json, roll: Option<int>) {
    var (twenty, one) := (roll == Some(20), roll == Some(1));
    var ten := exists n :: n >= 10 && roll == Some(n);
    var ignored := outcome in [Str("ALREADY_DEAD"), Str("ALREADY_STABILIZED")];
    var revived, pending := outcome == Str("CRITICAL_SUCCESS_REVIVED_1HP"), outcome == Str("PENDING");
    var decided := outcome in [Str("DEAD"), Str("STABILIZED")];
    && (kind == "ignored_already_dead" <==> outcome == Str("ALREADY_DEAD"))
    && (kind == "ignored_already_stabilized" <==> outcome == Str("ALREADY_STABILIZED"))
    && (kind == "critical_success" <==> !ignored && (twenty || revived))
    && (kind == "critical_failure" <==> one && pending)
    && (kind == "success" <==> !twenty && (outcome == Str("STABILIZED") || (ten && pending)))
    && (kind == "failure" <==> !twenty && (outcome == Str("DEAD") || (!one && !ten && pending)))
    && (kind == "unknown" <==> !twenty && !ignored && !revived && !decided && !pending)
  }

  lemma KindIsTold(outcome: Json, roll: Option<int>)
    ensures KindTold(SaveKind(outcome, roll), outcome, roll)
  {
    if roll.Some? { assert (exists n :: n >= 10 && roll == Some(n)) <==> roll.value >= 10; }
  }

  /** An attempt as the payload tells it: roll and word as they stand, and the kind they give. */
  ghost predicate Tells(payload: map<string, Json>, a: Attempt) {
    && (forall n :: a.roll == Some(n) <==> HoldsNumber(payload, "natural_roll", n))
    && (forall t :: a.result == Some(t) <==> HoldsText(payload, "outcome", t))
    && KindTold(a.kind, if "outcome" in payload then payload["outcome"] else Null, a.roll)
    && a.kind in ["ignored_already_dead", "ignored_already_stabilized", "critical_success", "critical_failure",
                  "success", "failure", "unknown"]
  }

  lemma SavesTell(payload: map<string, Json>, n: int)
    ensures Tells(payload, ClassifySave(n, payload)) && ClassifySave(n, payload).sequence == n
  {
    hide AsInt, HoldsNumber, HoldsText, KindTold;
    NumbersAreHeld(payload, "natural_roll");
    LabelsAreHeld(payload);
    KindIsTold(Opt(payload, "outcome"), AsInt(Opt(payload, "natural_roll")));
  }

  lemma LabelsAreHeld(payload: map<string, Json>)
    ensures forall t :: HoldsText(payload, "outcome", t) <==> Opt(payload, "outcome") == Str(t)
  {
  }

  /** Two attempts of one number that tell the same payload are one. */
  lemma TellsIsExact(payload: map<string, Json>, a: Attempt, b: Attempt)
    requires Tells(payload, a) && Tells(payload, b) && a.sequence == b.sequence
    ensures a == b
  {
    if a.roll.Some? { assert HoldsNumber(payload, "natural_roll", a.roll.value); }
    if b.roll.Some? { assert HoldsNumber(payload, "natural_roll", b.roll.value); }
    if a.result.Some? { assert HoldsText(payload, "outcome", a.result.value); }
    if b.result.Some? { assert HoldsText(payload, "outcome", b.result.value); }
  }

  /** The word, whatever the case of its letters. */
  ghost predicate Spells(word: string, text: string) {
    && |text| == |word|
    && forall i :: 0 <= i < |word| ==>
         text[i] == word[i] || ('A' <= word[i] <= 'Z' && text[i] as int == word[i] as int + 32)
  }

  ghost predicate AllCapitals(word: string) {
    forall i :: 0 <= i < |word| ==> !('a' <= word[i] <= 'z')
  }

  lemma {:induction false} UpperSpells(text: string, word: string)
    requires AllCapitals(word)
    ensures Upper(text) == word <==> Spells(word, text)
  {
    if text != "" && word != "" {
      UpperSpells(text[1..], word[1..]);
      assert word == [word[0]] + word[1..];
      if Spells(word, text) {
        assert Spells(word[1..], text[1..]);
      } else if Spells(word[1..], text[1..]) {
        forall i | 1 <= i < |word|
          ensures text[i] == word[i] || ('A' <= word[i] <= 'Z' && text[i] as int == word[i] as int + 32)
        {
          assert text[1..][i - 1] == text[i] && word[1..][i - 1] == word[i];
        }
      }
    }
  }

  ghost predicate ResultSpells(a: Attempt, word: string) {
    a.result.Some? && Spells(word, a.result.value)
  }

  ghost predicate Kills(a: Attempt) {
    ResultSpells(a, "DEAD")
  }

  ghost predicate Rescues(a: Attempt) {
    && !Kills(a)
    && (ResultSpells(a, "STABILIZED") || ResultSpells(a, "CRITICAL_SUCCESS_REVIVED_1HP") ||
        a.kind == "critical_success")
  }

  ghost predicate SetAside(a: Attempt) {
    a.kind == "ignored_already_dead" || a.kind == "ignored_already_stabilized"
  }

  lemma ResultIsUpper(a: Attempt, word: string)
    requires AllCapitals(word) && word != ""
    ensures Upper(if a.result.Some? then a.result.value else "") == word <==> ResultSpells(a, word)
  {
    UpperSpells(if a.result.Some? then a.result.value else "", word);
  }

  /** What a save does to an open episode, by its word and kind. */
  lemma EffectExactly(a: Attempt)
    ensures EffectOf(a) == Ignored <==> SetAside(a)
    ensures EffectOf(a) == Closes(Died) <==> !SetAside(a) && Kills(a)
    ensures EffectOf(a) == Closes(Stabilized) <==> !SetAside(a) && Rescues(a)
    ensures EffectOf(a) != Closes(InProgress)
  {
    hide Upper, ResultSpells;
    ResultIsUpper(a, "DEAD");
    ResultIsUpper(a, "STABILIZED");
    ResultIsUpper(a, "CRITICAL_SUCCESS_REVIVED_1HP");
  }

  /** An event is read as a save exactly when it is one of that token, with the attempt its payload tells. */
  lemma SavesExactlyWhen(e: Event, t: string, a: Attempt, effect: Effect)
    ensures Read(e) == Save(t, a, effect) <==>
              SaveOf(e, t, a.sequence) && Tells(e.payload, a) && effect == EffectOf(a)
  {
    hide ClassifySave, EffectOf, Tells;
    if e.Event? {
      SequenceIsHeld(e, a.sequence);
      SavesTell(e.payload, a.sequence);
      if AsInt(e.sequenceId).Some? { SavesTell(e.payload, AsInt(e.sequenceId).value); }
      if Tells(e.payload, a) { TellsIsExact(e.payload, a, ClassifySave(a.sequence, e.payload)); }
    }
  }

  // ---------------------------------------------------------------- reported entries

  ghost predicate Undecided(attempts: seq<Attempt>) {
    forall i :: 0 <= i < |attempts| ==> !Kills(attempts[i]) && !Rescues(attempts[i])
  }

  /** How an episode ends follows from its last attempt, and none before decided it. */
  ghost predicate EndsAsTold(ep: Episode) {
    var n := |ep.attempts|;
    && (ep.outcome == Died <==> ep.instantDeath || (n > 0 && Kills(ep.attempts[n - 1])))
    && (ep.outcome == Stabilized <==> n > 0 && Rescues(ep.attempts[n - 1]))
    && (ep.instantDeath ==> n == 0) && (n > 0 ==> Undecided(ep.attempts[..n - 1]))
  }

  ghost predicate StillOpen(ep: Episode) {
    ep.outcome == InProgress && !ep.instantDeath && Undecided(ep.attempts)
  }

  ghost predicate PassEnds(p: Pass) {
    && (forall ep :: ep in p.open ==> StillOpen(ep))
    && (forall ep :: ep in p.entries ==> EndsAsTold(ep))
  }

  lemma {:induction false} Members(open: seq<Episode>, token: string, ep: Episode, x: Episode)
    ensures x in Drop(open, token) ==> x in open
    ensures x in Update(open, ep) ==> x in open || x == ep
    ensures Find(open, token).Some? ==> Find(open, token).value in open
  {
    if open != [] { Members(open[1..], token, ep, x); }
  }

  lemma OpenEnds(ep: Episode)
    requires StillOpen(ep)
    ensures EndsAsTold(ep)
  {
  }

  lemma OneMoreAttempt(ep: Episode, a: Attempt)
    requires StillOpen(ep) && !SetAside(a)
    ensures var next := ep.(attempts := ep.attempts + [a]);
            match EffectOf(a)
            case Ignored => false
            case Continues => StillOpen(next)
            case Closes(outcome) => EndsAsTold(next.(outcome := outcome))
  {
    hide Kills, Rescues, SetAside;
    EffectExactly(a);
    assert (ep.attempts + [a])[..|ep.attempts|] == ep.attempts;
  }

  lemma SaveKeepsEnds(p: Pass, token: string, a: Attempt)
    requires PassEnds(p)
    ensures PassEnds(SaveStep(p, token, a, EffectOf(a)))
  {
    hide StillOpen, EndsAsTold, EffectOf;
    EffectExactly(a);
    var found := Find(p.open, token);
    if found.Some? && !SetAside(a) {
      var next := found.value.(attempts := found.value.attempts + [a]);
      forall x { Members(p.open, token, next, x); }
      OneMoreAttempt(found.value, a);
    }
  }

  lemma TriggerKeepsEnds(p: Pass, ep: Episode)
    requires PassEnds(p) && ep.attempts == [] && ep.outcome == (if ep.instantDeath then Died else InProgress)
    ensures PassEnds(TriggerStep(p, ep))
  {
    forall x { Members(p.open, ep.token, ep, x); }
    var prior := Find(p.open, ep.token);
    if prior.Some? {
      OpenEnds(prior.value);
      assert prior.value.(outcome := InProgress) == prior.value;
    }
  }

  lemma {:induction false} FoldKeepsEnds(p: Pass, events: seq<Event>)
    requires PassEnds(p)
    ensures PassEnds(Fold(p, events))
    decreases |events|
  {
    if events != [] {
      hide PassEnds;
      match Read(events[0]) {
        case Nothing =>
        case Save(token, a, effect) => SaveKeepsEnds(p, token, a);
        case Trigger(ep) => TriggerKeepsEnds(p, ep);
      }
      FoldKeepsEnds(Step(p, events[0]), events[1..]);
    }
  }

  lemma {:induction false} DrainMembers(open: seq<Episode>, entries: seq<Episode>, ep: Episode)
    ensures ep in Drain(open, entries) <==> ep in open || ep in entries
    decreases |open|
  {
    if open != [] {
      DrainMembers(open[1..], if open[0] in entries then entries else entries + [open[0]], ep);
      assert ep in open <==> ep == open[0] || ep in open[1..];
    }
  }

  /** For every ledger and reported entry: it ends in death exactly when the death was instant or its last save's
      word reads "DEAD"; it ends stabilized exactly when the last save's word reads "STABILIZED" or
      "CRITICAL_SUCCESS_REVIVED_1HP", or the save was a critical success whose word does not read "DEAD"; otherwise
      it is in progress. No save before the last could have ended it. */
  lemma EntriesEndAsTold(events: seq<Event>, ep: Episode)
    requires ep in Entries(events)
    ensures ep.outcome == Died <==>
              ep.instantDeath || (ep.attempts != [] && ResultSpells(ep.attempts[|ep.attempts| - 1], "DEAD"))
    ensures ep.outcome == Stabilized <==>
              && ep.attempts != []
              && var last := ep.attempts[|ep.attempts| - 1];
                 && !ResultSpells(last, "DEAD")
                 && (ResultSpells(last, "STABILIZED") || ResultSpells(last, "CRITICAL_SUCCESS_REVIVED_1HP")
                     || last.kind == "critical_success")
    ensures forall i :: 0 <= i < |ep.attempts| - 1 ==> !Kills(ep.attempts[i]) && !Rescues(ep.attempts[i])
  {
    var p := Fold(Start, events);
    FoldKeepsEnds(Start, events);
    DrainMembers(p.open, p.entries, ep);
    if ep in p.open { OpenEnds(ep); }
    forall i | 0 <= i < |ep.attempts| - 1 ensures !Kills(ep.attempts[i]) && !Rescues(ep.attempts[i]) {
      assert ep.attempts[..|ep.attempts| - 1][i] == ep.attempts[i];
    }
  }
}
