/** The gateway's autosave calls and its store, as the objects that change: one uninterrupted cycle does
    to the stored rows what a run of the step machine in Autosave does. */
module AutosaveGateway {
  import opened Text
  import opened Autosave
  import opened AutosaveStore

  /** What the awaits of one policy return: None stands for a raised exception. `disabled`, `stored` and
      `recorded` tell whether the three writes went through. */
  datatype Answer = Answer(lobbies: Option<seq<Option<string>>>, disabled: bool, engine: Option<nat>, stored: bool,
                           recorded: bool)

  datatype Reply = BadInterval | GmOnly | NoStanding | Kept

  // ---------------------------------------------------------------- one policy as moves

  ghost function AfterCheck(item: Item, a: Answer): seq<Move> {
    match a.engine
    case None => [Fail]
    case Some(events) =>
      if item.lastEvents >= 0 && events == item.lastEvents then [Fetch(events)]
      else if !a.stored then [Fetch(events), Fail]
      else if !a.recorded then [Fetch(events), Save, Fail]
      else [Fetch(events), Save, Record]
  }

  /** The moves of one policy, preceded by the roster its standing check read. */
  ghost function PolicyMoves(item: Item, now: real, a: Answer): seq<Move> {
    if !Due(item, now) then [Choose]
    else match a.lobbies
      case None => [Unchecked]
      case Some(lobbies) =>
        if Some(item.slot.session) in lobbies then [Roster({item.slot})] + ([Choose] + AfterCheck(item, a))
        else [Roster({})] + ([Choose] + [if a.disabled then Disable else Fail])
  }

  ghost function Planned(plan: (Item, Answer) -> seq<Move>, items: seq<Item>, answers: seq<Answer>): seq<Move>
    requires |items| == |answers|
  {
    if items == [] then [] else plan(items[0], answers[0]) + Planned(plan, items[1..], answers[1..])
  }

  ghost function CycleMoves(items: seq<Item>, now: real, answers: seq<Answer>): seq<Move>
    requires |items| == |answers|
  {
    Planned((item, a) => PolicyMoves(item, now, a), items, answers) + [End]
  }

  lemma PlannedStep(plan: (Item, Answer) -> seq<Move>, items: seq<Item>, answers: seq<Answer>, i: nat, moves: seq<Move>)
    requires |items| == |answers| && i < |items|
    requires moves + Planned(plan, items[i..], answers[i..]) == Planned(plan, items, answers)
    ensures (moves + plan(items[i], answers[i])) + Planned(plan, items[i + 1..], answers[i + 1..]) ==
            Planned(plan, items, answers)
  {
    assert items[i..][1..] == items[i + 1..] && answers[i..][1..] == answers[i + 1..];
  }

  /** `run` holds of every legal run and its last state, and of runs put together; `plan` names the moves of
      a policy. The loop below knows no more than this. */
  ghost predicate Describes(run: (State, seq<Move>, State) -> bool, plan: (Item, Answer) -> seq<Move>, now: real) {
    && (forall s, moves :: Legal(s, moves) ==> run(s, moves, After(s, moves)))
    && (forall s, a, t, b, u :: run(s, a, t) && run(t, b, u) ==> run(s, a + b, u))
    && forall item, a :: plan(item, a) == PolicyMoves(item, now, a)
  }

  /** The state one policy leaves. */
  ghost function Handled(t: State, a: Answer): State
    requires t.cycle.On? && t.cycle.stage.Choosing? && t.cycle.todo != []
  {
    var item := t.cycle.todo[0];
    if !Due(item, t.cycle.now) then Next(t, Choose)
    else match a.lobbies
      case None => Next(t, Unchecked)
      case Some(lobbies) =>
        if Some(item.slot.session) in lobbies then Fetched(Next(Next(t, Roster({item.slot})), Choose), a)
        else Next(Next(Next(t, Roster({})), Choose), if a.disabled then Disable else Fail)
  }

  ghost function Fetched(t: State, a: Answer): State
    requires t.cycle.On? && t.cycle.stage.Fetching?
  {
    match a.engine
    case None => Next(t, Fail)
    case Some(events) =>
      var u := Next(t, Fetch(events));
      if u.cycle.stage.Choosing? then u
      else if !a.stored then Next(u, Fail)
      else if !a.recorded then Next(Next(u, Save), Fail)
      else Next(Next(u, Save), Record)
  }

  lemma FetchedIsMoves(t: State, a: Answer)
    requires t.cycle.On? && t.cycle.stage.Fetching?
    ensures Legal(t, AfterCheck(t.cycle.stage.item, a)) && After(t, AfterCheck(t.cycle.stage.item, a)) == Fetched(t, a)
  {
    hide Upserted, FindSave;
    match a.engine
    case None => AddMove(t, [], Fail); assert [] + [Fail] == [Fail];
    case Some(events) =>
      var u := Next(t, Fetch(events));
      AddMove(t, [], Fetch(events));
      assert [] + [Fetch(events)] == [Fetch(events)];
      if !u.cycle.stage.Choosing? {
        if !a.stored {
          AddMove(t, [Fetch(events)], Fail);
        } else {
          AddMove(t, [Fetch(events)], Save);
          AddMove(t, [Fetch(events), Save], if a.recorded then Record else Fail);
        }
      }
  }

  lemma HandledIsMoves(t: State, a: Answer)
    requires t.cycle.On? && t.cycle.stage.Choosing? && t.cycle.todo != []
    ensures var moves := PolicyMoves(t.cycle.todo[0], t.cycle.now, a);
            Legal(t, moves) && After(t, moves) == Handled(t, a)
  {
    var item := t.cycle.todo[0];
    if !Due(item, t.cycle.now) {
      Then(t, Choose, []);
      assert [Choose] + [] == [Choose];
    } else if a.lobbies.None? {
      Then(t, Unchecked, []);
      assert [Unchecked] + [] == [Unchecked];
    } else if Some(item.slot.session) in a.lobbies.value {
      var u := Next(t, Roster({item.slot}));
      FetchedIsMoves(Next(u, Choose), a);
      Then(u, Choose, AfterCheck(item, a));
      Then(t, Roster({item.slot}), [Choose] + AfterCheck(item, a));
    } else {
      var u, m := Next(t, Roster({})), if a.disabled then Disable else Fail;
      Then(Next(u, Choose), m, []);
      assert [m] + [] == [m];
      Then(u, Choose, [m]);
      Then(t, Roster({}), [Choose] + [m]);
    }
  }

  // ---------------------------------------------------------------- what a cycle returns

  /** The sessions and ledger lengths of the recorded saves, in order. */
  ghost function Reported(h: seq<Fact>): seq<(string, nat)> {
    if h == [] then []
    else if Last(h).Recorded? then Reported(Front(h)) + [(Last(h).slot.session, Last(h).events)]
    else Reported(Front(h))
  }

  lemma ReportedOneMore(h: seq<Fact>, f: Fact)
    ensures Reported(h + [f]) == if f.Recorded? then Reported(h) + [(f.slot.session, f.events)] else Reported(h)
  {
    assert Front(h + [f]) == h;
  }

  ghost function SavedOf(item: Item, now: real, a: Answer): seq<(string, nat)> {
    if Due(item, now) && a.lobbies.Some? && Some(item.slot.session) in a.lobbies.value then FetchedOf(item, a) else []
  }

  ghost function FetchedOf(item: Item, a: Answer): seq<(string, nat)> {
    if a.engine.Some? && !(item.lastEvents >= 0 && a.engine.value == item.lastEvents) && a.stored && a.recorded
    then [(item.slot.session, a.engine.value)] else []
  }

  lemma FetchedReports(t: State, a: Answer)
    requires t.cycle.On? && t.cycle.stage.Fetching?
    ensures Reported(Fetched(t, a).history) == Reported(t.history) + FetchedOf(t.cycle.stage.item, a)
    ensures Fetched(t, a).cycle == t.cycle.(stage := Choosing)
  {
    hide FindSave, Overwrite, Reported;
    var item := t.cycle.stage.item;
    if a.engine.None? || (item.lastEvents >= 0 && a.engine.value == item.lastEvents) || !a.stored {
      assert Fetched(t, a).history == t.history;
    } else {
      var h := t.history + [Saved(item.slot, t.cycle.n)];
      ReportedOneMore(t.history, Saved(item.slot, t.cycle.n));
      if a.recorded {
        var f := Recorded(item.slot, t.cycle.now, a.engine.value, item.interval);
        assert Fetched(t, a).history == h + [f];
        ReportedOneMore(h, f);
      } else {
        assert Fetched(t, a).history == h;
      }
    }
  }

  lemma ReportsJoin(a: seq<(string, nat)>, b: seq<(string, nat)>, c: seq<(string, nat)>)
    ensures (a + b) + c == a + (b + c)
  {
  }

  lemma HandledReports(t: State, a: Answer)
    requires t.cycle.On? && t.cycle.stage.Choosing? && t.cycle.todo != []
    ensures Reported(Handled(t, a).history) == Reported(t.history) + SavedOf(t.cycle.todo[0], t.cycle.now, a)
    ensures Handled(t, a).cycle == t.cycle.(todo := t.cycle.todo[1..])
  {
    hide Reported, Fetched, FetchedOf;
    var item := t.cycle.todo[0];
    if Due(item, t.cycle.now) && a.lobbies.Some? {
      var standing := Some(item.slot.session) in a.lobbies.value;
      var u := Next(Next(t, Roster(if standing then {item.slot} else {})), Choose);
      ReportedOneMore(t.history, Checked(item.slot, t.cycle.n, standing));
      if standing {
        FetchedReports(u, a);
      } else if a.disabled {
        assert Handled(t, a).history == u.history + [DisabledByLoop(item.slot, item.interval)];
        ReportedOneMore(u.history, DisabledByLoop(item.slot, item.interval));
      } else {
        assert Handled(t, a).history == u.history;
      }
    }
  }

  // ---------------------------------------------------------------- what a cycle stores

  /** The item is due, its owner has standing, the engine answers with another count than the last save's, and the
      write of the snapshot goes through. */
  ghost predicate Stores(item: Item, now: real, a: Answer) {
    && (item.lastSavedAt == None || item.lastSavedAt.value + (item.interval * 60) as real <= now)
    && a.lobbies != None && Some(item.slot.session) in a.lobbies.value
    && a.engine != None && a.engine.value != item.lastEvents && a.stored
  }

  ghost predicate StoresAs(item: Item, now: real, a: Answer, owner: string, name: string) {
    Stores(item, now, a) && item.slot.owner == owner && PeriodicSaveName(item.slot.session) == name
  }

  /** No item from the k-th on stores a snapshot under that owner and name. */
  ghost predicate NoneStores(items: seq<Item>, now: real, answers: seq<Answer>, k: nat, owner: string, name: string)
    requires |items| == |answers|
  {
    forall j :: k <= j < |items| ==> !StoresAs(items[j], now, answers[j], owner, name)
  }

  /** Under each owner and name stands the snapshot of the last item that stored one there, and what stood there
      before if none did. */
  ghost predicate CycleStored(before: seq<SaveRow>, after: seq<SaveRow>, items: seq<Item>, now: real,
                              answers: seq<Answer>, owner: string, name: string)
    requires |items| == |answers|
  {
    && (NoneStores(items, now, answers, 0, owner, name) ==>
        FindSave(after, owner, name) == FindSave(before, owner, name))
    && forall i: nat :: i < |items| && StoresAs(items[i], now, answers[i], owner, name)
                        && NoneStores(items, now, answers, i + 1, owner, name) ==>
         FindSave(after, owner, name).Some? && Some(FindSave(after, owner, name).value.events) == answers[i].engine
  }

  ghost predicate AllStored(before: seq<SaveRow>, after: seq<SaveRow>, items: seq<Item>, now: real,
                            answers: seq<Answer>)
    requires |items| == |answers|
  {
    forall owner, name :: CycleStored(before, after, items, now, answers, owner, name)
  }

  /** Each snapshot that was stored and recorded is reported, in the order of the items, and nothing else is. */
  ghost function ReportOf(items: seq<Item>, now: real, answers: seq<Answer>): seq<(string, nat)>
    requires |items| == |answers|
  {
    if items == [] then []
    else
      var rest := ReportOf(items[1..], now, answers[1..]);
      if Stores(items[0], now, answers[0]) && answers[0].recorded
      then [(items[0].slot.session, answers[0].engine.value)] + rest else rest
  }

  /** The item is due and its owner has no standing, and the write that disables its policy goes through. */
  ghost predicate Disables(item: Item, now: real, a: Answer) {
    && (item.lastSavedAt == None || item.lastSavedAt.value + (item.interval * 60) as real <= now)
    && a.lobbies != None && Some(item.slot.session) !in a.lobbies.value && a.disabled
  }

  /** The policies when those of the disabling items have been switched off with the interval listed. */
  ghost function PoliciesLeft(policies: map<Slot, Policy>, items: seq<Item>, now: real, answers: seq<Answer>)
    : map<Slot, Policy>
    requires |items| == |answers|
    decreases items
  {
    if items == [] then policies
    else
      var next := if Disables(items[0], now, answers[0])
                  then policies[items[0].slot := Policy(false, items[0].interval)] else policies;
      PoliciesLeft(next, items[1..], now, answers[1..])
  }

  /** The progress when each snapshot that was stored and recorded has been entered with its count and this time. */
  ghost function ProgressLeft(progress: map<Slot, Progress>, items: seq<Item>, now: real, answers: seq<Answer>)
    : map<Slot, Progress>
    requires |items| == |answers|
    decreases items
  {
    if items == [] then progress
    else
      var next := if Stores(items[0], now, answers[0]) && answers[0].recorded
                  then progress[items[0].slot := Progress(answers[0].engine.value, now)] else progress;
      ProgressLeft(next, items[1..], now, answers[1..])
  }

  lemma FetchedLeaves(t: State, a: Answer)
    requires t.cycle.On? && t.cycle.stage.Fetching?
    ensures Fetched(t, a).policies == t.policies
    ensures var item := t.cycle.stage.item;
            Fetched(t, a).progress ==
            if a.engine.Some? && a.engine.value != item.lastEvents && a.stored && a.recorded
            then t.progress[item.slot := Progress(a.engine.value, t.cycle.now)] else t.progress
  {
    hide FindSave, Overwrite, PeriodicSaveName;
  }

  lemma HandledLeaves(t: State, a: Answer)
    requires t.cycle.On? && t.cycle.stage.Choosing? && t.cycle.todo != []
    ensures var item := t.cycle.todo[0];
            && Handled(t, a).policies == (if Disables(item, t.cycle.now, a)
                                          then t.policies[item.slot := Policy(false, item.interval)] else t.policies)
            && Handled(t, a).progress == (if Stores(item, t.cycle.now, a) && a.recorded
                                          then t.progress[item.slot := Progress(a.engine.value, t.cycle.now)]
                                          else t.progress)
  {
    hide Fetched;
    var item := t.cycle.todo[0];
    if Due(item, t.cycle.now) && a.lobbies.Some? && Some(item.slot.session) in a.lobbies.value {
      FetchedLeaves(Next(Next(t, Roster({item.slot})), Choose), a);
    }
  }

  lemma FetchedStores(t: State, a: Answer, owner: string, name: string)
    requires t.cycle.On? && t.cycle.stage.Fetching?
    ensures var item := t.cycle.stage.item;
            var (before, after) := (FindSave(t.saves, owner, name), FindSave(Fetched(t, a).saves, owner, name));
            if a.engine.Some? && a.engine.value != item.lastEvents && a.stored
               && item.slot.owner == owner && PeriodicSaveName(item.slot.session) == name
            then after.Some? && Some(after.value.events) == a.engine else after == before
  {
    hide FindSave, Upserted, ItemsFor;
    if a.engine.Some? && a.engine.value != t.cycle.stage.item.lastEvents && a.stored {
      MoveStores(Next(t, Fetch(a.engine.value)), Save, owner, name);
    }
  }

  lemma HandledStores(t: State, a: Answer, owner: string, name: string)
    requires t.cycle.On? && t.cycle.stage.Choosing? && t.cycle.todo != []
    ensures var (before, after) := (FindSave(t.saves, owner, name), FindSave(Handled(t, a).saves, owner, name));
            if StoresAs(t.cycle.todo[0], t.cycle.now, a, owner, name)
            then after.Some? && Some(after.value.events) == a.engine else after == before
  {
    hide FindSave, Fetched, ItemsFor, PeriodicSaveName;
    var item := t.cycle.todo[0];
    if Due(item, t.cycle.now) && a.lobbies.Some? && Some(item.slot.session) in a.lobbies.value {
      FetchedStores(Next(Next(t, Roster({item.slot})), Choose), a, owner, name);
    }
  }

  lemma NoneStoresBehind(items: seq<Item>, now: real, answers: seq<Answer>, k: nat, owner: string, name: string)
    requires |items| == |answers| && items != []
    ensures NoneStores(items[1..], now, answers[1..], k, owner, name) <==>
            NoneStores(items, now, answers, k + 1, owner, name)
  {
    var rest, others := items[1..], answers[1..];
    if NoneStores(rest, now, others, k, owner, name) {
      forall j | k + 1 <= j < |items| ensures !StoresAs(items[j], now, answers[j], owner, name) {
        assert rest[j - 1] == items[j] && others[j - 1] == answers[j];
      }
    }
    if NoneStores(items, now, answers, k + 1, owner, name) {
      forall j | k <= j < |rest| ensures !StoresAs(rest[j], now, others[j], owner, name) {
        assert rest[j] == items[j + 1] && others[j] == answers[j + 1];
      }
    }
  }

  /** The rows stored by the first item and then by the others are those stored by all of them. */
  lemma StoredThen(a: seq<SaveRow>, b: seq<SaveRow>, c: seq<SaveRow>, items: seq<Item>, now: real, answers: seq<Answer>,
                   owner: string, name: string)
    requires |items| == |answers| && items != []
    requires var (before, after) := (FindSave(a, owner, name), FindSave(b, owner, name));
             if StoresAs(items[0], now, answers[0], owner, name)
             then after.Some? && Some(after.value.events) == answers[0].engine else after == before
    requires CycleStored(b, c, items[1..], now, answers[1..], owner, name)
    ensures CycleStored(a, c, items, now, answers, owner, name)
  {
    hide FindSave, Stores, PeriodicSaveName;
    var rest, others := items[1..], answers[1..];
    NoneStoresBehind(items, now, answers, 0, owner, name);
    forall i: nat | i < |items| && StoresAs(items[i], now, answers[i], owner, name)
                    && NoneStores(items, now, answers, i + 1, owner, name)
      ensures FindSave(c, owner, name).Some? && Some(FindSave(c, owner, name).value.events) == answers[i].engine
    {
      if i > 0 {
        NoneStoresBehind(items, now, answers, i, owner, name);
        assert rest[i - 1] == items[i] && others[i - 1] == answers[i];
      }
    }
  }

  lemma {:induction false} CycleStores(t: State, plan: (Item, Answer) -> seq<Move>, answers: seq<Answer>, owner: string,
                                       name: string)
    requires t.cycle.On? && t.cycle.stage.Choosing? && |t.cycle.todo| == |answers|
    requires forall item, a :: plan(item, a) == PolicyMoves(item, t.cycle.now, a)
    ensures var moves := Planned(plan, t.cycle.todo, answers);
            && Legal(t, moves)
            && CycleStored(t.saves, After(t, moves).saves, t.cycle.todo, t.cycle.now, answers, owner, name)
    decreases |answers|
  {
    hide FindSave, Next, Handled, PolicyMoves, CycleStored, Reported, PeriodicSaveName, Stores;
    var items := t.cycle.todo;
    if items == [] {
      NothingStored(t.saves, t.cycle.now, owner, name);
    } else {
      var u, rest := Handled(t, answers[0]), Planned(plan, items[1..], answers[1..]);
      HandledIsMoves(t, answers[0]);
      HandledReports(t, answers[0]);
      HandledStores(t, answers[0], owner, name);
      CycleStores(u, plan, answers[1..], owner, name);
      Joined(t, plan(items[0], answers[0]), rest);
      StoredThen(t.saves, u.saves, After(u, rest).saves, items, t.cycle.now, answers, owner, name);
    }
  }

  lemma {:induction false} CycleReports(t: State, plan: (Item, Answer) -> seq<Move>, answers: seq<Answer>)
    requires t.cycle.On? && t.cycle.stage.Choosing? && |t.cycle.todo| == |answers|
    requires forall item, a :: plan(item, a) == PolicyMoves(item, t.cycle.now, a)
    ensures var moves := Planned(plan, t.cycle.todo, answers);
            && Legal(t, moves)
            && Reported(After(t, moves).history) == Reported(t.history) + ReportOf(t.cycle.todo, t.cycle.now, answers)
            && After(t, moves).policies == PoliciesLeft(t.policies, t.cycle.todo, t.cycle.now, answers)
            && After(t, moves).progress == ProgressLeft(t.progress, t.cycle.todo, t.cycle.now, answers)
    decreases |answers|
  {
    hide Next, Handled, PolicyMoves, Reported, Disables;
    var items := t.cycle.todo;
    if items != [] {
      var u, rest := Handled(t, answers[0]), Planned(plan, items[1..], answers[1..]);
      HandledIsMoves(t, answers[0]);
      HandledReports(t, answers[0]);
      HandledLeaves(t, answers[0]);
      CycleReports(u, plan, answers[1..]);
      Joined(t, plan(items[0], answers[0]), rest);
      ReportsJoin(Reported(t.history), SavedOf(items[0], t.cycle.now, answers[0]),
                  ReportOf(items[1..], t.cycle.now, answers[1..]));
    }
  }

  /** What the loop over the policies has stored and reported when it ends. */
  lemma CycleTold(start: State, t: State, run: (State, seq<Move>, State) -> bool, plan: (Item, Answer) -> seq<Move>,
                  answers: seq<Answer>, saved: seq<(string, nat)>)
    requires start.cycle.On? && start.cycle.stage.Choosing? && |start.cycle.todo| == |answers|
    requires run == ((s: State, a: seq<Move>, t: State) => Legal(s, a) && After(s, a) == t)
    requires plan == ((item: Item, a: Answer) => PolicyMoves(item, start.cycle.now, a))
    requires run(start, Planned(plan, start.cycle.todo, answers), t)
    requires Reported(t.history) == Reported(start.history) + saved
    ensures AllStored(start.saves, t.saves, start.cycle.todo, start.cycle.now, answers)
    ensures saved == ReportOf(start.cycle.todo, start.cycle.now, answers)
    ensures t.policies == PoliciesLeft(start.policies, start.cycle.todo, start.cycle.now, answers)
    ensures t.progress == ProgressLeft(start.progress, start.cycle.todo, start.cycle.now, answers)
  {
    hide CycleStored, Reported, PolicyMoves, ReportOf;
    CycleReports(start, plan, answers);
    forall owner, name
      ensures CycleStored(start.saves, t.saves, start.cycle.todo, start.cycle.now, answers, owner, name)
    {
      CycleStores(start, plan, answers, owner, name);
    }
    var (before, told) := (Reported(start.history), ReportOf(start.cycle.todo, start.cycle.now, answers));
    assert (before + saved)[|before|..] == saved && (before + told)[|before|..] == told;
  }

  /** The items of a cycle are its policies as they stand: the interval of each, five where none is set, and the count
      and time of its last recorded save. */
  lemma {:induction false} ItemsAreListed(s: State, order: seq<Slot>, i: nat)
    requires (forall slot :: slot in order ==> slot in s.policies) && i < |order|
    ensures |ItemsFor(s, order)| == |order| && order[i] in s.policies
    ensures var (item, slot) := (ItemsFor(s, order)[i], order[i]);
            && item.slot == slot
            && (s.policies[slot].interval != 0 ==> item.interval == s.policies[slot].interval)
            && (s.policies[slot].interval == 0 ==> item.interval == 5)
            && (slot in s.progress ==>
                  item.lastEvents == s.progress[slot].events && item.lastSavedAt == Some(s.progress[slot].savedAt))
            && (slot !in s.progress ==> item.lastEvents == -1 && item.lastSavedAt == None)
  {
    assert forall slot :: slot in order[1..] ==> slot in order;
    if i > 0 { ItemsAreListed(s, order[1..], i - 1); } else { ItemsForLength(s, order[1..]); }
  }

  lemma NothingStored(saves: seq<SaveRow>, now: real, owner: string, name: string)
    ensures CycleStored(saves, saves, [], now, [], owner, name)
  {
  }

  // ---------------------------------------------------------------- listing

  /** The enabled keys, in the table's own order. */
  function EnabledOrder(keys: seq<Slot>, policies: map<Slot, Policy>): seq<Slot> {
    if keys == [] then []
    else if PolicyEnabled(policies, keys[0]) then [keys[0]] + EnabledOrder(keys[1..], policies)
    else EnabledOrder(keys[1..], policies)
  }

  lemma {:induction false} EnabledOrderFacts(keys: seq<Slot>, policies: map<Slot, Policy>)
    ensures forall slot :: slot in EnabledOrder(keys, policies) <==> slot in keys && PolicyEnabled(policies, slot)
    ensures Distinct(keys) ==> Distinct(EnabledOrder(keys, policies))
  {
    if keys != [] { EnabledOrderFacts(keys[1..], policies); }
  }

  lemma {:induction false} ItemsSnoc(s: State, order: seq<Slot>, slot: Slot)
    requires slot in s.policies && forall o :: o in order ==> o in s.policies
    ensures forall o :: o in order + [slot] ==> o in s.policies
    ensures ItemsFor(s, order + [slot]) == ItemsFor(s, order) + [ItemFor(s, slot)]
  {
    if order == [] {
      assert [] + [slot] == [slot] && [slot][1..] == [];
    } else {
      assert (order + [slot])[1..] == order[1..] + [slot];
      assert forall o :: o in order[1..] ==> o in order;
      ItemsSnoc(s, order[1..], slot);
    }
  }

  lemma {:induction false} EnabledSnoc(keys: seq<Slot>, slot: Slot, policies: map<Slot, Policy>)
    ensures EnabledOrder(keys + [slot], policies) ==
            if PolicyEnabled(policies, slot) then EnabledOrder(keys, policies) + [slot]
            else EnabledOrder(keys, policies)
  {
    if keys == [] {
      assert [] + [slot] == [slot] && [slot][1..] == [];
    } else {
      assert (keys + [slot])[1..] == keys[1..] + [slot];
      EnabledSnoc(keys[1..], slot, policies);
    }
  }

  /** Any lobby of the caller bound to the session gives standing; nothing else does. */
  method HasSessionStanding(lobbies: seq<Option<string>>, session: string) returns (standing: bool)
    ensures standing <==> Some(session) in lobbies
  {
    for i := 0 to |lobbies|
      invariant Some(session) !in lobbies[..i]
    {
      if lobbies[i] == Some(session) { return true; }
    }
    return false;
  }

  // ---------------------------------------------------------------- the gateway and its in-memory store

  class Gateway {
    /** The policy table and the order in which its keys were first inserted. */
    var policies: map<Slot, Policy>
    var keys: seq<Slot>
    var progress: map<Slot, Progress>
    var saves: seq<SaveRow>
    var counter: nat

    ghost predicate Valid()
      reads this
    {
      Distinct(keys) && forall slot :: slot in keys <==> slot in policies
    }

    /** The stored part of a state of the step machine. */
    ghost predicate Holds(s: State)
      reads this
    {
      policies == s.policies && progress == s.progress && saves == s.saves && counter == s.counter
    }

    constructor ()
      ensures Valid() && Holds(Initial)
    {
      policies, keys, progress, saves, counter := map[], [], map[], [], 0;
    }

    method UpsertCampaignSave(owner: string, name: string, events: nat)
      modifies this`saves, this`counter
      ensures FindSave(old(saves), owner, name).Some? ==>
              saves == Overwrite(old(saves), owner, name, events) && counter == old(counter)
      ensures FindSave(old(saves), owner, name).None? ==>
              saves == old(saves) + [SaveRow(counter, owner, name, events)] && counter == old(counter) + 1
    {
      var i := 0;
      while i < |saves|
        invariant i <= |saves| && saves == old(saves) && counter == old(counter)
        invariant FindSave(saves[..i], owner, name).None?
      {
        if saves[i].owner == owner && saves[i].name == name {
          OverwriteAt(saves, i, owner, name, events);
          saves := saves[i := saves[i].(events := events)];
          return;
        }
        FoundAfterAdd(saves[..i], saves[i], owner, name);
        assert saves[..i + 1] == saves[..i] + [saves[i]];
        i := i + 1;
      }
      assert saves[..i] == saves;
      counter := counter + 1;
      saves := saves + [SaveRow(counter, owner, name, events)];
    }

    method DeleteCampaignSave(owner: string, id: nat)
      modifies this`saves
      ensures saves == WithoutSave(old(saves), owner, id)
    {
      var kept: seq<SaveRow> := [];
      for i := 0 to |saves|
        invariant saves == old(saves)
        invariant WithoutSave(saves, owner, id) == kept + WithoutSave(saves[i..], owner, id)
      {
        assert saves[i..][1..] == saves[i + 1..];
        if !(saves[i].owner == owner && saves[i].id == id) { kept := kept + [saves[i]]; }
      }
      saves := kept;
    }

    method UpsertAutosavePolicy(slot: Slot, enabled: bool, interval: int)
      requires Valid()
      modifies this`policies, this`keys
      ensures Valid() && policies == old(policies)[slot := Policy(enabled, interval)]
      ensures keys == if slot in old(policies) then old(keys) else old(keys) + [slot]
    {
      if slot !in policies {
        DistinctSnoc(keys, slot);
        keys := keys + [slot];
      }
      policies := policies[slot := Policy(enabled, interval)];
    }

    method RecordAutosaveRun(slot: Slot, events: int, savedAt: real)
      modifies this`progress
      ensures progress == old(progress)[slot := Progress(events, savedAt)]
    {
      progress := progress[slot := Progress(events, savedAt)];
    }

    /** Every enabled policy with its progress, in table order. */
    method ListEnabledAutosavePolicies(ghost s: State) returns (items: seq<Item>)
      requires Valid() && Holds(s)
      ensures forall slot :: slot in EnabledOrder(keys, policies) ==> slot in s.policies
      ensures items == ItemsFor(s, EnabledOrder(keys, policies))
    {
      items := [];
      EnabledOrderFacts(keys, policies);
      for i := 0 to |keys|
        invariant forall slot :: slot in EnabledOrder(keys[..i], policies) ==> slot in s.policies
        invariant items == ItemsFor(s, EnabledOrder(keys[..i], policies))
      {
        var slot := keys[i];
        assert keys[..i + 1] == keys[..i] + [slot] && slot in keys;
        EnabledSnoc(keys[..i], slot, policies);
        if policies[slot].enabled {
          ItemsSnoc(s, EnabledOrder(keys[..i], policies), slot);
          var interval := EffectiveInterval(policies[slot].interval);
          if slot in progress {
            items := items + [Item(slot, interval, progress[slot].events, Some(progress[slot].savedAt))];
          } else {
            items := items + [Item(slot, interval, -1, None)];
          }
        }
      }
      assert keys[..|keys|] == keys;
    }

    /** The policy request: refused unless its interval is in range, its caller is staff and has standing;
        a refusal writes nothing. */
    method SetAutosavePolicy(slot: Slot, staff: bool, lobbies: seq<Option<string>>, enabled: bool, interval: int)
      returns (reply: Reply)
      requires Valid()
      modifies this`policies, this`keys
      ensures Valid()
      ensures reply.Kept? <==> 1 <= interval <= 1440 && staff && Some(slot.session) in lobbies
      ensures reply.Kept? ==> policies == old(policies)[slot := Policy(enabled, interval)]
      ensures !reply.Kept? ==> policies == old(policies) && keys == old(keys)
      ensures reply.BadInterval? <==> !(1 <= interval <= 1440)
      ensures reply.NoStanding? ==> staff
    {
      if !(1 <= interval <= 1440) { return BadInterval; }
      if !staff { return GmOnly; }
      var standing := HasSessionStanding(lobbies, slot.session);
      if !standing { return NoStanding; }
      UpsertAutosavePolicy(slot, enabled, interval);
      return Kept;
    }

    /** What follows a standing check that passed: fetch, compare with the last save, save, record. */
    method SaveSession(item: Item, now: real, a: Answer, ghost t: State) returns (saved: seq<(string, nat)>)
      requires Valid() && Holds(t) && t.cycle.On? && t.cycle.now == now && t.cycle.stage == Fetching(item)
      modifies this`saves, this`counter, this`progress
      ensures Valid() && Holds(Fetched(t, a)) && saved == FetchedOf(item, a)
    {
      hide FindSave, Overwrite, PeriodicSaveName;
      saved := [];
      if a.engine.None? { return; }
      var events := a.engine.value;
      if item.lastEvents >= 0 && events == item.lastEvents { return; }
      ghost var u := Next(t, Fetch(events));
      if !a.stored { return; }
      UpsertCampaignSave(item.slot.owner, PeriodicSaveName(item.slot.session), events);
      assert Holds(Next(u, Save));
      if !a.recorded { return; }
      RecordAutosaveRun(item.slot, events, now);
      assert Holds(Next(Next(u, Save), Record));
      saved := [(item.slot.session, events)];
    }

    /** One policy of the cycle does to the rows what its moves do to the state. */
    method HandlePolicy(item: Item, now: real, a: Answer, ghost t: State,
                        ghost run: (State, seq<Move>, State) -> bool, ghost plan: (Item, Answer) -> seq<Move>)
      returns (saved: seq<(string, nat)>, ghost u: State)
      requires Valid() && Holds(t) && t.cycle.On? && t.cycle.now == now && t.cycle.stage.Choosing?
      requires t.cycle.todo != [] && t.cycle.todo[0] == item
      requires Describes(run, plan, now)
      modifies this
      ensures Valid() && Holds(u) && run(t, plan(item, a), u)
      ensures u.cycle == t.cycle.(todo := t.cycle.todo[1..])
      ensures Reported(u.history) == Reported(t.history) + saved
    {
      u := Handled(t, a);
      HandledIsMoves(t, a);
      HandledReports(t, a);
      saved := ActOnPolicy(item, now, a, t);
    }

    method ActOnPolicy(item: Item, now: real, a: Answer, ghost t: State) returns (saved: seq<(string, nat)>)
      requires Valid() && Holds(t) && t.cycle.On? && t.cycle.now == now && t.cycle.stage.Choosing?
      requires t.cycle.todo != [] && t.cycle.todo[0] == item
      modifies this
      ensures Valid() && Holds(Handled(t, a)) && saved == SavedOf(item, now, a)
    {
      saved := [];
      if item.lastSavedAt.Some? && now - item.lastSavedAt.value < (item.interval * 60) as real { return; }
      if a.lobbies.None? { return; }
      var standing := HasSessionStanding(a.lobbies.value, item.slot.session);
      if standing {
        saved := SaveSession(item, now, a, Next(Next(t, Roster({item.slot})), Choose));
      } else if a.disabled {
        UpsertAutosavePolicy(item.slot, false, item.interval);
      }
    }

    /** The loop over the listed policies. */
    method HandlePolicies(items: seq<Item>, now: real, answers: seq<Answer>, ghost start: State,
                          ghost run: (State, seq<Move>, State) -> bool, ghost plan: (Item, Answer) -> seq<Move>)
      returns (saved: seq<(string, nat)>, ghost t: State)
      requires Valid() && Holds(start) && start.cycle.On? && start.cycle.now == now && start.cycle.stage.Choosing?
      requires start.cycle.todo == items && |items| == |answers|
      requires Describes(run, plan, now) && run(start, [], start)
      modifies this
      ensures Valid() && Holds(t) && run(start, Planned(plan, items, answers), t)
      ensures t.cycle == start.cycle.(todo := [])
      ensures Reported(t.history) == Reported(start.history) + saved
    {
      saved, t := [], start;
      ghost var moves: seq<Move>, reported := [], Reported(start.history);
      var i := 0;
      while i < |items|
        invariant i <= |items| && Valid() && Holds(t)
        invariant t.cycle == start.cycle.(todo := items[i..])
        invariant run(start, moves, t)
        invariant moves + Planned(plan, items[i..], answers[i..]) == Planned(plan, items, answers)
        invariant Reported(t.history) == reported + saved
      {
        var more;
        ghost var u;
        more, u := HandlePolicy(items[i], now, answers[i], t, run, plan);
        PlannedStep(plan, items, answers, i, moves);
        ReportsJoin(reported, saved, more);
        assert items[i..][1..] == items[i + 1..];
        moves, t, saved := moves + plan(items[i], answers[i]), u, saved + more;
        i := i + 1;
      }
      assert moves == moves + Planned(plan, items[i..], answers[i..]);
    }

    /** One pass over the enabled policies; `listed` is false when even listing them raised. Whatever the
        awaits answer, the stored rows afterwards are those of a legal run of the step machine, and the
        result names exactly the saves that run recorded. Each snapshot stands in the store under the
        policy's owner and periodic name unless a later policy of the pass wrote there. */
    method RunAutosaveCycle(now: real, listed: bool, answers: seq<Answer>, ghost s: State)
      returns (saved: seq<(string, nat)>, ghost moves: seq<Move>)
      requires Valid() && Holds(s) && s.cycle.Off?
      requires |answers| == |EnabledOrder(keys, policies)|
      modifies this
      ensures Valid()
      ensures !listed ==> moves == [] && saved == []
      ensures listed ==>
                && (forall slot :: slot in EnabledOrder(old(keys), old(policies)) ==> slot in s.policies)
                && |ItemsFor(s, EnabledOrder(old(keys), old(policies)))| == |answers|
                && moves == [Begin(now, EnabledOrder(old(keys), old(policies)))] +
                    CycleMoves(ItemsFor(s, EnabledOrder(old(keys), old(policies))), now, answers)
      ensures Legal(s, moves) && Holds(After(s, moves)) && After(s, moves).cycle.Off?
      ensures Reported(After(s, moves).history) == Reported(s.history) + saved
      ensures listed ==> saved == ReportOf(ItemsFor(s, EnabledOrder(old(keys), old(policies))), now, answers)
      ensures listed ==>
                AllStored(old(saves), saves, ItemsFor(s, EnabledOrder(old(keys), old(policies))), now, answers)
      ensures listed ==>
                policies ==
                PoliciesLeft(old(policies), ItemsFor(s, EnabledOrder(old(keys), old(policies))), now, answers)
      ensures listed ==>
                progress ==
                ProgressLeft(old(progress), ItemsFor(s, EnabledOrder(old(keys), old(policies))), now, answers)
    {
      hide AllStored, ReportOf, Planned, PoliciesLeft, ProgressLeft;
      saved, moves := [], [];
      if !listed { return; }
      ghost var order := EnabledOrder(keys, policies);
      EnabledOrderFacts(keys, policies);
      var items := ListEnabledAutosavePolicies(s);
      ItemsForLength(s, order);
      ghost var begin := Begin(now, order);
      ghost var start := Next(s, begin);
      ghost var run := (s: State, a: seq<Move>, t: State) => Legal(s, a) && After(s, a) == t;
      ghost var plan := (item: Item, a: Answer) => PolicyMoves(item, now, a);
      ghost var t;
      RunsJoin(run, plan, now);
      saved, t := HandlePolicies(items, now, answers, start, run, plan);
      CycleTold(start, t, run, plan, answers, saved);
      AddMove(start, Planned(plan, items, answers), End);
      Then(s, begin, CycleMoves(items, now, answers));
      moves := [begin] + CycleMoves(items, now, answers);
    }
  }

  lemma RunsJoin(run: (State, seq<Move>, State) -> bool, plan: (Item, Answer) -> seq<Move>, now: real)
    requires run == ((s: State, a: seq<Move>, t: State) => Legal(s, a) && After(s, a) == t)
    requires plan == ((item: Item, a: Answer) => PolicyMoves(item, now, a))
    ensures Describes(run, plan, now)
  {
    forall s, a, t, b, u | run(s, a, t) && run(t, b, u) ensures run(s, a + b, u) {
      Joined(s, a, b);
    }
  }

  lemma {:induction false} OverwriteAt(saves: seq<SaveRow>, i: nat, owner: string, name: string, events: nat)
    requires i < |saves| && saves[i].owner == owner && saves[i].name == name && FindSave(saves[..i], owner, name).None?
    ensures FindSave(saves, owner, name).Some?
    ensures Overwrite(saves, owner, name, events) == saves[i := saves[i].(events := events)]
  {
    if i > 0 {
      assert saves[..i][1..] == saves[1..][..i - 1];
      OverwriteAt(saves[1..], i - 1, owner, name, events);
    }
  }

  lemma {:induction false} DistinctSnoc(keys: seq<Slot>, slot: Slot)
    requires Distinct(keys) && slot !in keys
    ensures Distinct(keys + [slot])
  {
    if keys == [] {
      assert [] + [slot] == [slot];
    } else {
      assert (keys + [slot])[1..] == keys[1..] + [slot];
      DistinctSnoc(keys[1..], slot);
    }
  }

  lemma {:induction false} ItemsForLength(s: State, order: seq<Slot>)
    requires forall slot :: slot in order ==> slot in s.policies
    ensures |ItemsFor(s, order)| == |order|
  {
    if order != [] {
      assert forall slot :: slot in order[1..] ==> slot in order;
      ItemsForLength(s, order[1..]);
    }
  }
}
