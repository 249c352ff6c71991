/** The death-save audit of a session ledger (python/vtt_orchestrator/death_audit.py): one pass with
    open episodes per token, proved to give every token the episodes its own events tell. */
module DeathAudit {
  import opened Text

  /** A decoded JSON value, as far as the audit looks into it. */
  datatype Json = Null | Bool(b: bool) | Int(n: int) | Str(s: string) | Other(truthy: bool)

  /** A ledger event; a payload that is missing or no object reads as the empty map. */
  datatype Event =
    | NotAnEvent
    | Event(reverted: bool, sequenceId: Json, eventType: string, actorId: Json, payload: map<string, Json>)

  datatype Outcome = Stabilized | Died | InProgress

  datatype Attempt = Attempt(sequence: int, kind: string, roll: Option<int>, result: Option<string>)

  datatype Episode = Episode(token: string, trigger: int, eventType: string, source: Json, hpWasZeroAt: int,
                             instantDeath: bool, attempts: seq<Attempt>, outcome: Outcome)

  /** `open` keeps the insertion order of the dictionary of open episodes. */
  datatype Pass = Pass(open: seq<Episode>, entries: seq<Episode>)

  const Start := Pass([], [])

  // ---------------------------------------------------------------- reading an event

  function Opt(payload: map<string, Json>, key: string): Json {
    if key in payload then payload[key] else Null
  }

  /** Truth values count as integers. */
  function AsInt(j: Json): Option<int> {
    match j
    case Int(n) => Some(n)
    case Bool(b) => Some(if b then 1 else 0)
    case _ => None
  }

  function AsText(j: Json): Option<string> {
    if j.Str? then Some(j.s) else None
  }

  function Truthy(j: Json): bool {
    match j
    case Null => false
    case Bool(b) => b
    case Int(n) => n != 0
    case Str(s) => s != ""
    case Other(t) => t
  }

  /** The top-level actor wins; a payload actor is only a fallback. */
  function EventActor(e: Event): Option<string>
    requires e.Event?
  {
    if e.actorId.Str? then Some(e.actorId.s) else AsText(Opt(e.payload, "actor_id"))
  }

  predicate IsTriggering(eventType: string) {
    eventType == "DAMAGE_APPLIED" || eventType == "ATTACK_RESOLVED" || eventType == "SPELL_CAST"
  }

  function HpAfterDamage(e: Event): Option<int>
    requires e.Event?
  {
    if e.eventType == "DAMAGE_APPLIED" then AsInt(Opt(e.payload, "hp_remaining"))
    else if e.eventType == "ATTACK_RESOLVED" || e.eventType == "SPELL_CAST"
    then AsInt(Opt(e.payload, "target_hp_remaining"))
    else None
  }

  function DamageAmount(e: Event): Option<int>
    requires e.Event?
  {
    if e.eventType == "DAMAGE_APPLIED" then AsInt(Opt(e.payload, "amount"))
    else if e.eventType == "ATTACK_RESOLVED" then AsInt(Opt(e.payload, "total_damage"))
    else if e.eventType == "SPELL_CAST" then AsInt(Opt(e.payload, "damage_total"))
    else None
  }

  function TriggerInstantDeath(e: Event): bool
    requires e.Event?
  {
    if e.eventType == "DAMAGE_APPLIED" then Truthy(Opt(e.payload, "instant_death"))
    else e.eventType == "ATTACK_RESOLVED" && Truthy(Opt(e.payload, "target_is_dead"))
  }

  /** Upper case, for the ASCII letters outcome labels are written in. */
  function Upper(s: string): string {
    if s == "" then ""
    else [if 'a' <= s[0] <= 'z' then (s[0] as int - 32) as char else s[0]] + Upper(s[1..])
  }

  function SaveKind(outcome: Json, roll: Option<int>): string {
    if outcome == Str("ALREADY_DEAD") then "ignored_already_dead"
    else if outcome == Str("ALREADY_STABILIZED") then "ignored_already_stabilized"
    else if outcome == Str("CRITICAL_SUCCESS_REVIVED_1HP") || roll == Some(20) then "critical_success"
    else if outcome == Str("DEAD") then "failure"
    else if outcome == Str("STABILIZED") then "success"
    else if outcome == Str("PENDING") then
      (if roll == Some(1) then "critical_failure"
       else if roll.Some? && roll.value >= 10 then "success"
       else "failure")
    else "unknown"
  }

  function ClassifySave(sequence: int, payload: map<string, Json>): Attempt {
    var roll, outcome := AsInt(Opt(payload, "natural_roll")), Opt(payload, "outcome");
    Attempt(sequence, SaveKind(outcome, roll), roll, AsText(outcome))
  }

  /** What a save does to its token's open episode. */
  datatype Effect = Ignored | Continues | Closes(outcome: Outcome)

  function EffectOf(a: Attempt): Effect {
    var verdict := Upper(if a.result.Some? then a.result.value else "");
    if a.kind == "ignored_already_dead" || a.kind == "ignored_already_stabilized" then Ignored
    else if verdict == "DEAD" then Closes(Died)
    else if verdict == "STABILIZED" || verdict == "CRITICAL_SUCCESS_REVIVED_1HP" || a.kind == "critical_success"
    then Closes(Stabilized)
    else Continues
  }

  /** What an event says to the audit. */
  datatype Meaning = Nothing | Save(token: string, attempt: Attempt, effect: Effect) | Trigger(episode: Episode)

  function Read(e: Event): Meaning {
    if e.NotAnEvent? || e.reverted then Nothing
    else
      var seqId := AsInt(e.sequenceId);
      if e.eventType == "DEATH_SAVE_RESOLVED" then
        var token := EventActor(e);
        if token.None? || seqId.None? then Nothing
        else var a := ClassifySave(seqId.value, e.payload); Save(token.value, a, EffectOf(a))
      else if !IsTriggering(e.eventType) then Nothing
      else
        var target, hp, damage := AsText(Opt(e.payload, "target_id")), HpAfterDamage(e), DamageAmount(e);
        if target.None? || seqId.None? || hp.None? || hp.value > 0 || damage.None? || damage.value <= 0 then Nothing
        else
          var instant := TriggerInstantDeath(e);
          Trigger(Episode(target.value, seqId.value, e.eventType, e.actorId, seqId.value, instant, [],
                          if instant then Died else InProgress))
  }

  // ---------------------------------------------------------------- the pass

  function Find(open: seq<Episode>, token: string): Option<Episode> {
    if open == [] then None
    else if open[0].token == token then Some(open[0])
    else Find(open[1..], token)
  }

  function Drop(open: seq<Episode>, token: string): seq<Episode> {
    if open == [] then []
    else if open[0].token == token then open[1..]
    else [open[0]] + Drop(open[1..], token)
  }

  /** Updates the open episode of a token where it stands. */
  function Update(open: seq<Episode>, ep: Episode): seq<Episode> {
    if open == [] then []
    else if open[0].token == ep.token then [ep] + open[1..]
    else [open[0]] + Update(open[1..], ep)
  }

  function SaveStep(p: Pass, token: string, a: Attempt, effect: Effect): Pass {
    match Find(p.open, token)
    case None => p
    case Some(ep) =>
      var next := ep.(attempts := ep.attempts + [a]);
      match effect
      case Ignored => p
      case Continues => Pass(Update(p.open, next), p.entries)
      case Closes(outcome) => Pass(Drop(p.open, token), p.entries + [next.(outcome := outcome)])
  }

  function TriggerStep(p: Pass, ep: Episode): Pass {
    var prior := Find(p.open, ep.token);
    var open := Drop(p.open, ep.token);
    var entries :=
      if prior.Some? && prior.value !in p.entries then p.entries + [prior.value.(outcome := InProgress)]
      else p.entries;
    if ep.instantDeath then Pass(open, entries + [ep]) else Pass(open + [ep], entries)
  }

  function Step(p: Pass, e: Event): Pass {
    match Read(e)
    case Nothing => p
    case Save(token, a, effect) => SaveStep(p, token, a, effect)
    case Trigger(ep) => TriggerStep(p, ep)
  }

  function Fold(p: Pass, events: seq<Event>): Pass
    decreases events
  {
    if events == [] then p else Fold(Step(p, events[0]), events[1..])
  }

  /** Open episodes go last, in the order they were opened. */
  function Drain(open: seq<Episode>, entries: seq<Episode>): seq<Episode>
    decreases open
  {
    if open == [] then entries
    else Drain(open[1..], if open[0] in entries then entries else entries + [open[0]])
  }

  function Entries(events: seq<Event>): seq<Episode> {
    var p := Fold(Start, events);
    Drain(p.open, p.entries)
  }

  datatype Note = NoEvents | NothingDropped

  datatype Report = Available(entries: seq<Episode>) | Unavailable(note: Note)

  /** The source's pass. */
  method BuildDeathAudit(events: seq<Event>) returns (r: Report)
    ensures r == if events == [] then Unavailable(NoEvents)
                 else if Entries(events) == [] then Unavailable(NothingDropped)
                 else Available(Entries(events))
  {
    if events == [] { return Unavailable(NoEvents); }
    var open: seq<Episode>, entries: seq<Episode> := [], [];
    var i := 0;
    ghost var whole := Fold(Start, events);
    assert events[0..] == events;
    while i < |events|
      invariant i <= |events| && whole == Fold(Pass(open, entries), events[i..])
    {
      assert events[i..][1..] == events[i + 1..];
      match Read(events[i]) {
        case Nothing =>
        case Save(token, a, effect) =>
          var found := Find(open, token);
          if found.Some? && !effect.Ignored? {
            var episode := found.value.(attempts := found.value.attempts + [a]);
            if effect.Closes? {
              entries := entries + [episode.(outcome := effect.outcome)];
              open := Drop(open, token);
            } else {
              open := Update(open, episode);
            }
          }
        case Trigger(episode) =>
          var prior := Find(open, episode.token);
          open := Drop(open, episode.token);
          if prior.Some? && prior.value !in entries {
            entries := entries + [prior.value.(outcome := InProgress)];
          }
          if episode.instantDeath {
            entries := entries + [episode];
          } else {
            open := open + [episode];
          }
      }
      i := i + 1;
    }
    entries := DrainOpen(open, entries);
    return if entries == [] then Unavailable(NothingDropped) else Available(entries);
  }

  method DrainOpen(open: seq<Episode>, closed: seq<Episode>) returns (entries: seq<Episode>)
    ensures entries == Drain(open, closed)
  {
    entries := closed;
    var i := 0;
    assert open[0..] == open;
    while i < |open|
      invariant i <= |open| && Drain(open, closed) == Drain(open[i..], entries)
    {
      assert open[i..][1..] == open[i + 1..];
      if open[i] !in entries {
        entries := entries + [open[i]];
      }
      i := i + 1;
    }
  }
}
