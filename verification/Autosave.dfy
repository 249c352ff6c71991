/** Periodic autosave (python/vtt_orchestrator/server.py and storage.py): one cycle walks over the
    enabled policies and awaits at every storage or engine call. Each await is a step boundary here,
    so roster changes, policy edits, manual saves and failures may fall between any two of them. */
module Autosave {
  import opened Text

  /** A policy belongs to an owner and an engine session. */
  datatype Slot = Slot(owner: string, session: string)

  datatype Policy = Policy(enabled: bool, interval: int)

  datatype Progress = Progress(events: int, savedAt: real)

  /** A campaign save; `events` stands for the snapshot. */
  datatype SaveRow = SaveRow(id: nat, owner: string, name: string, events: nat)

  /** A policy as the cycle listed it; no save yet reads as -1 events and no time. */
  datatype Item = Item(slot: Slot, interval: int, lastEvents: int, lastSavedAt: Option<real>)

  datatype Stage = Choosing | Disabling(item: Item) | Fetching(item: Item) | Saving(item: Item, events: nat)
    | Recording(item: Item, events: nat)

  datatype Cycle = Off | On(n: nat, now: real, todo: seq<Item>, stage: Stage)

  /** A policy edit whose standing check passed and that is about to be written. */
  datatype Edit = Edit(slot: Slot, enabled: bool, interval: int)

  /** What happened, for the statements; the source keeps no such record. */
  datatype Fact =
    | Allowed(edit: Edit)
    | Applied(edit: Edit)
    | Checked(slot: Slot, n: nat, standing: bool)
    | DisabledByLoop(slot: Slot, interval: int)
    | Saved(slot: Slot, n: nat)
    | Recorded(slot: Slot, now: real, events: nat, interval: int)

  datatype State = State(policies: map<Slot, Policy>, progress: map<Slot, Progress>, saves: seq<SaveRow>, counter: nat,
                         standing: set<Slot>, edits: seq<Edit>, cycle: Cycle, cycles: nat, history: seq<Fact>)

  const Initial := State(map[], map[], [], 0, {}, [], Off, 0, [])

  datatype Move =
    | Roster(standing: set<Slot>)
    | Ask(slot: Slot, staff: bool, enabled: bool, interval: int)
    | Apply(i: nat)
    | ManualSave(owner: string, name: string, events: nat)
    | DeleteSave(owner: string, id: nat)
    | Begin(now: real, order: seq<Slot>)
    | Choose
    | Unchecked
    | Disable
    | Fetch(events: nat)
    | Save
    | Record
    | Fail
    | End

  // ---------------------------------------------------------------- storage

  function Prefix(session: string): string {
    if |session| <= 8 then session else session[..8]
  }

  /** The rolling slot name of a session's periodic saves. */
  function PeriodicSaveName(session: string): string {
    "Periodic Autosave \U{00B7} " + Prefix(session)
  }

  function FindSave(saves: seq<SaveRow>, owner: string, name: string): Option<SaveRow> {
    if saves == [] then None
    else if saves[0].owner == owner && saves[0].name == name then Some(saves[0])
    else FindSave(saves[1..], owner, name)
  }

  /** Overwrites the first row of that owner and name. */
  function Overwrite(saves: seq<SaveRow>, owner: string, name: string, events: nat): seq<SaveRow> {
    if saves == [] then []
    else if saves[0].owner == owner && saves[0].name == name then [saves[0].(events := events)] + saves[1..]
    else [saves[0]] + Overwrite(saves[1..], owner, name, events)
  }

  function WithoutSave(saves: seq<SaveRow>, owner: string, id: nat): seq<SaveRow> {
    if saves == [] then []
    else if saves[0].owner == owner && saves[0].id == id then WithoutSave(saves[1..], owner, id)
    else [saves[0]] + WithoutSave(saves[1..], owner, id)
  }

  function Upserted(s: State, owner: string, name: string, events: nat): State {
    if FindSave(s.saves, owner, name).Some? then s.(saves := Overwrite(s.saves, owner, name, events))
    else s.(saves := s.saves + [SaveRow(s.counter + 1, owner, name, events)], counter := s.counter + 1)
  }

  function PolicyEnabled(policies: map<Slot, Policy>, slot: Slot): bool {
    slot in policies && policies[slot].enabled
  }

  function EffectiveInterval(interval: int): int {
    if interval == 0 then 5 else interval
  }

  function ItemFor(s: State, slot: Slot): Item
    requires slot in s.policies
  {
    var interval := EffectiveInterval(s.policies[slot].interval);
    if slot in s.progress then Item(slot, interval, s.progress[slot].events, Some(s.progress[slot].savedAt))
    else Item(slot, interval, -1, None)
  }

  function ItemsFor(s: State, order: seq<Slot>): seq<Item>
    requires forall slot :: slot in order ==> slot in s.policies
  {
    if order == [] then [] else [ItemFor(s, order[0])] + ItemsFor(s, order[1..])
  }

  // ---------------------------------------------------------------- moves

  predicate Due(item: Item, now: real) {
    item.lastSavedAt.None? || now - item.lastSavedAt.value >= (item.interval * 60) as real
  }

  ghost predicate Distinct(order: seq<Slot>) {
    order == [] || (order[0] !in order[1..] && Distinct(order[1..]))
  }

  ghost predicate Enabled(s: State, m: Move) {
    match m
    case Roster(_) => true
    case Ask(_, _, _, interval) => 1 <= interval <= 1440
    case Apply(i) => i < |s.edits|
    case ManualSave(_, _, _) => true
    case DeleteSave(_, _) => true
    case Begin(_, order) =>
      s.cycle.Off? && Distinct(order) && forall slot :: slot in order <==> PolicyEnabled(s.policies, slot)
    case Choose => s.cycle.On? && s.cycle.stage.Choosing? && s.cycle.todo != []
    case Unchecked => s.cycle.On? && s.cycle.stage.Choosing? && s.cycle.todo != [] && Due(s.cycle.todo[0], s.cycle.now)
    case Disable => s.cycle.On? && s.cycle.stage.Disabling?
    case Fetch(_) => s.cycle.On? && s.cycle.stage.Fetching?
    case Save => s.cycle.On? && s.cycle.stage.Saving?
    case Record => s.cycle.On? && s.cycle.stage.Recording?
    case Fail => s.cycle.On? && !s.cycle.stage.Choosing?
    case End => s.cycle.On? && s.cycle.stage.Choosing? && s.cycle.todo == []
  }

  ghost function Next(s: State, m: Move): State
    requires Enabled(s, m)
  {
    match m
    case Roster(standing) => s.(standing := standing)
    case Ask(slot, staff, enabled, interval) =>
      if staff && slot in s.standing
      then s.(edits := s.edits + [Edit(slot, enabled, interval)],
              history := s.history + [Allowed(Edit(slot, enabled, interval))])
      else s
    case Apply(i) =>
      var edit := s.edits[i];
      s.(policies := s.policies[edit.slot := Policy(edit.enabled, edit.interval)],
         edits := s.edits[..i] + s.edits[i + 1..], history := s.history + [Applied(edit)])
    case ManualSave(owner, name, events) => Upserted(s, owner, name, events)
    case DeleteSave(owner, id) => s.(saves := WithoutSave(s.saves, owner, id))
    case Begin(now, order) => s.(cycle := On(s.cycles + 1, now, ItemsFor(s, order), Choosing), cycles := s.cycles + 1)
    case Choose =>
      var item := s.cycle.todo[0];
      if !Due(item, s.cycle.now) then s.(cycle := s.cycle.(todo := s.cycle.todo[1..]))
      else
        var standing := item.slot in s.standing;
        s.(cycle := s.cycle.(todo := s.cycle.todo[1..], stage := if standing then Fetching(item) else Disabling(item)),
           history := s.history + [Checked(item.slot, s.cycle.n, standing)])
    case Unchecked => s.(cycle := s.cycle.(todo := s.cycle.todo[1..]))
    case Disable =>
      var item := s.cycle.stage.item;
      s.(policies := s.policies[item.slot := Policy(false, item.interval)], cycle := s.cycle.(stage := Choosing),
         history := s.history + [DisabledByLoop(item.slot, item.interval)])
    case Fetch(events) =>
      var item := s.cycle.stage.item;
      var same := item.lastEvents >= 0 && events == item.lastEvents;
      s.(cycle := s.cycle.(stage := if same then Choosing else Saving(item, events)))
    case Save =>
      var item := s.cycle.stage.item;
      Upserted(s, item.slot.owner, PeriodicSaveName(item.slot.session), s.cycle.stage.events)
        .(cycle := s.cycle.(stage := Recording(item, s.cycle.stage.events)),
          history := s.history + [Saved(item.slot, s.cycle.n)])
    case Record =>
      var item, events := s.cycle.stage.item, s.cycle.stage.events;
      s.(progress := s.progress[item.slot := Progress(events, s.cycle.now)], cycle := s.cycle.(stage := Choosing),
         history := s.history + [Recorded(item.slot, s.cycle.now, events, item.interval)])
    case Fail => s.(cycle := s.cycle.(stage := Choosing))
    case End => s.(cycle := Off)
  }

  ghost predicate Legal(s: State, moves: seq<Move>)
    decreases moves
  {
    moves == [] || (Enabled(s, moves[0]) && Legal(Next(s, moves[0]), moves[1..]))
  }

  ghost function After(s: State, moves: seq<Move>): State
    requires Legal(s, moves)
    decreases moves
  {
    if moves == [] then s else After(Next(s, moves[0]), moves[1..])
  }

  // ---------------------------------------------------------------- reading the record

  ghost function Last<T>(s: seq<T>): T
    requires s != []
  {
    s[|s| - 1]
  }

  ghost function Front<T>(s: seq<T>): seq<T>
    requires s != []
  {
    s[..|s| - 1]
  }

  /** The last recorded save of a slot. */
  ghost function LastRecorded(h: seq<Fact>, slot: Slot): Option<Fact>
    ensures LastRecorded(h, slot).Some? ==>
              LastRecorded(h, slot).value.Recorded? && LastRecorded(h, slot).value.slot == slot
  {
    if h == [] then None
    else if Last(h).Recorded? && Last(h).slot == slot then Some(Last(h))
    else LastRecorded(Front(h), slot)
  }

  /** The last word on a slot's policy: an applied edit or the loop's own disabling. */
  ghost function LastPolicy(h: seq<Fact>, slot: Slot): Option<Policy> {
    if h == [] then None
    else if Last(h).Applied? && Last(h).edit.slot == slot then Some(Policy(Last(h).edit.enabled, Last(h).edit.interval))
    else if Last(h).DisabledByLoop? && Last(h).slot == slot then Some(Policy(false, Last(h).interval))
    else LastPolicy(Front(h), slot)
  }

  /** Two recorded saves of a slot that follow one another lie at least the later one's interval apart
      and show different ledgers. */
  ghost predicate Spaced(h: seq<Fact>) {
    h == [] ||
    (&& Spaced(Front(h))
     && (Last(h).Recorded? ==>
           match LastRecorded(Front(h), Last(h).slot)
           case None => true
           case Some(before) =>
             Last(h).now - before.now >= (Last(h).interval * 60) as real && Last(h).events != before.events))
  }

  /** Every save was preceded, in its own cycle, by a check that found standing; every applied edit by
      one that allowed it. */
  ghost predicate Earned(h: seq<Fact>) {
    h == [] ||
    (&& Earned(Front(h))
     && (Last(h).Saved? ==> Checked(Last(h).slot, Last(h).n, true) in Front(h))
     && (Last(h).Applied? ==> Allowed(Last(h).edit) in Front(h)))
  }

  // ---------------------------------------------------------------- the invariant

  ghost predicate OneRowPerName(saves: seq<SaveRow>) {
    saves == [] || (FindSave(saves[1..], saves[0].owner, saves[0].name).None? && OneRowPerName(saves[1..]))
  }

  ghost predicate PoliciesOk(s: State) {
    && (forall slot :: LastPolicy(s.history, slot) == if slot in s.policies then Some(s.policies[slot]) else None)
    && forall i :: 0 <= i < |s.edits| ==> Allowed(s.edits[i]) in s.history
  }

  ghost predicate ProgressOk(s: State) {
    forall slot ::
      match LastRecorded(s.history, slot)
      case None => slot !in s.progress
      case Some(r) => slot in s.progress && s.progress[slot] == Progress(r.events, r.now)
  }

  /** An item still shows the slot's progress. */
  ghost predicate Current(s: State, item: Item) {
    if item.slot in s.progress
    then item.lastEvents == s.progress[item.slot].events && item.lastSavedAt == Some(s.progress[item.slot].savedAt)
    else item.lastEvents == -1 && item.lastSavedAt == None
  }

  ghost predicate NotListed(todo: seq<Item>, slot: Slot) {
    todo == [] || (todo[0].slot != slot && NotListed(todo[1..], slot))
  }

  ghost predicate TodoOk(s: State, todo: seq<Item>) {
    todo == [] || (Current(s, todo[0]) && NotListed(todo[1..], todo[0].slot) && TodoOk(s, todo[1..]))
  }

  ghost predicate StageOk(s: State) {
    s.cycle.On? && !s.cycle.stage.Choosing? ==>
      var item := s.cycle.stage.item;
      && Current(s, item) && NotListed(s.cycle.todo, item.slot) && Due(item, s.cycle.now)
      && (!s.cycle.stage.Disabling? ==> Checked(item.slot, s.cycle.n, true) in s.history)
      && (s.cycle.stage.Saving? || s.cycle.stage.Recording? ==>
          !(item.lastEvents >= 0 && s.cycle.stage.events == item.lastEvents))
  }

  ghost predicate Inv(s: State) {
    && PoliciesOk(s) && ProgressOk(s) && Spaced(s.history) && Earned(s.history) && OneRowPerName(s.saves)
    && (s.cycle.On? ==> TodoOk(s, s.cycle.todo)) && StageOk(s)
  }

  // ---------------------------------------------------------------- one fact more

  lemma OneMoreFact(h: seq<Fact>, f: Fact)
    ensures Front(h + [f]) == h && Last(h + [f]) == f
    ensures Spaced(h) && !f.Recorded? ==> Spaced(h + [f])
    ensures Earned(h) && !f.Saved? && !f.Applied? ==> Earned(h + [f])
    ensures forall slot :: LastRecorded(h + [f], slot) ==
                           if f.Recorded? && f.slot == slot then Some(f) else LastRecorded(h, slot)
    ensures forall slot :: LastPolicy(h + [f], slot) ==
                           if f.Applied? && f.edit.slot == slot then Some(Policy(f.edit.enabled, f.edit.interval))
                           else if f.DisabledByLoop? && f.slot == slot then Some(Policy(false, f.interval))
                           else LastPolicy(h, slot)
  {
    assert Front(h + [f]) == h;
  }

  lemma {:induction false} TodoFrame(s: State, t: State, todo: seq<Item>)
    requires TodoOk(s, todo)
    requires forall slot :: !NotListed(todo, slot) ==>
               && (slot in s.progress <==> slot in t.progress)
               && (slot in s.progress ==> s.progress[slot] == t.progress[slot])
    ensures TodoOk(t, todo)
  {
    if todo != [] {
      assert !NotListed(todo, todo[0].slot);
      TodoFrame(s, t, todo[1..]);
    }
  }

  lemma {:induction false} OverwriteFacts(saves: seq<SaveRow>, owner: string, name: string, events: nat)
    ensures forall o, n :: FindSave(Overwrite(saves, owner, name, events), o, n).Some? <==> FindSave(saves, o, n).Some?
    ensures OneRowPerName(saves) ==> OneRowPerName(Overwrite(saves, owner, name, events))
  {
    if saves != [] { OverwriteFacts(saves[1..], owner, name, events); }
  }

  lemma {:induction false} AddSave(saves: seq<SaveRow>, row: SaveRow)
    requires OneRowPerName(saves) && FindSave(saves, row.owner, row.name).None?
    ensures OneRowPerName(saves + [row])
    ensures forall o, n :: FindSave(saves + [row], o, n).Some? <==>
            FindSave(saves, o, n).Some? || (o == row.owner && n == row.name)
  {
    if saves == [] {
      assert saves + [row] == [row] && [row][1..] == [];
    } else {
      assert (saves + [row])[1..] == saves[1..] + [row];
      AddSave(saves[1..], row);
    }
  }

  lemma {:induction false} WithoutFacts(saves: seq<SaveRow>, owner: string, id: nat)
    requires OneRowPerName(saves)
    ensures OneRowPerName(WithoutSave(saves, owner, id))
    ensures forall o, n :: FindSave(WithoutSave(saves, owner, id), o, n).Some? ==> FindSave(saves, o, n).Some?
  {
    if saves != [] { WithoutFacts(saves[1..], owner, id); }
  }

  lemma UpsertKeepsOneRow(s: State, owner: string, name: string, events: nat)
    requires OneRowPerName(s.saves)
    ensures OneRowPerName(Upserted(s, owner, name, events).saves)
  {
    OverwriteFacts(s.saves, owner, name, events);
    if FindSave(s.saves, owner, name).None? {
      AddSave(s.saves, SaveRow(s.counter + 1, owner, name, events));
    }
  }

  lemma {:induction false} ItemsFresh(s: State, order: seq<Slot>)
    requires Distinct(order) && forall slot :: slot in order ==> slot in s.policies
    ensures TodoOk(s, ItemsFor(s, order))
    ensures forall slot :: slot !in order ==> NotListed(ItemsFor(s, order), slot)
  {
    if order != [] {
      assert forall slot :: slot in order[1..] ==> slot in order;
      ItemsFresh(s, order[1..]);
    }
  }

  // ---------------------------------------------------------------- every move keeps the invariant

  lemma MembersStay(h: seq<Fact>, f: Fact)
    ensures forall g :: g in h ==> g in h + [f]
    ensures f in h + [f]
  {
  }

  /** Nothing the cycle relies on changed: its items still hold. */
  lemma CycleKept(s: State, t: State)
    requires s.cycle.On? && TodoOk(s, s.cycle.todo) && StageOk(s)
    requires t.cycle == s.cycle && t.progress == s.progress && forall g :: g in s.history ==> g in t.history
    ensures TodoOk(t, t.cycle.todo) && StageOk(t)
  {
    TodoFrame(s, t, s.cycle.todo);
  }

  lemma AskKeepsInv(s: State, slot: Slot, staff: bool, enabled: bool, interval: int)
    requires Inv(s) && Enabled(s, Ask(slot, staff, enabled, interval))
    ensures Inv(Next(s, Ask(slot, staff, enabled, interval)))
  {
    var f := Allowed(Edit(slot, enabled, interval));
    OneMoreFact(s.history, f);
    MembersStay(s.history, f);
    var t := Next(s, Ask(slot, staff, enabled, interval));
    if s.cycle.On? { CycleKept(s, t); }
  }

  lemma ApplyKeepsInv(s: State, i: nat)
    requires Inv(s) && Enabled(s, Apply(i))
    ensures Inv(Next(s, Apply(i)))
  {
    var f := Applied(s.edits[i]);
    OneMoreFact(s.history, f);
    MembersStay(s.history, f);
    var t := Next(s, Apply(i));
    assert Earned(t.history) by { assert Allowed(s.edits[i]) in s.history; }
    forall k | 0 <= k < |t.edits| ensures Allowed(t.edits[k]) in t.history {
      assert t.edits[k] == s.edits[if k < i then k else k + 1];
    }
    if s.cycle.On? { CycleKept(s, t); }
  }

  lemma ManualSaveKeepsInv(s: State, owner: string, name: string, events: nat)
    requires Inv(s)
    ensures Inv(Next(s, ManualSave(owner, name, events)))
  {
    UpsertKeepsOneRow(s, owner, name, events);
    if s.cycle.On? { CycleKept(s, Next(s, ManualSave(owner, name, events))); }
  }

  lemma DeleteSaveKeepsInv(s: State, owner: string, id: nat)
    requires Inv(s)
    ensures Inv(Next(s, DeleteSave(owner, id)))
  {
    WithoutFacts(s.saves, owner, id);
    if s.cycle.On? { CycleKept(s, Next(s, DeleteSave(owner, id))); }
  }

  lemma BeginKeepsInv(s: State, now: real, order: seq<Slot>)
    requires Inv(s) && Enabled(s, Begin(now, order))
    ensures Inv(Next(s, Begin(now, order)))
  {
    ItemsFresh(s, order);
    TodoFrame(s, Next(s, Begin(now, order)), ItemsFor(s, order));
  }

  lemma ChooseKeepsInv(s: State)
    requires Inv(s) && Enabled(s, Choose)
    ensures Inv(Next(s, Choose))
  {
    var item := s.cycle.todo[0];
    var t := Next(s, Choose);
    TodoFrame(s, t, s.cycle.todo[1..]);
    if Due(item, s.cycle.now) {
      var f := Checked(item.slot, s.cycle.n, item.slot in s.standing);
      OneMoreFact(s.history, f);
      MembersStay(s.history, f);
    }
  }

  lemma DisableKeepsInv(s: State)
    requires Inv(s) && Enabled(s, Disable)
    ensures Inv(Next(s, Disable))
  {
    var f := DisabledByLoop(s.cycle.stage.item.slot, s.cycle.stage.item.interval);
    OneMoreFact(s.history, f);
    MembersStay(s.history, f);
    TodoFrame(s, Next(s, Disable), s.cycle.todo);
  }

  lemma FetchKeepsInv(s: State, events: nat)
    requires Inv(s) && Enabled(s, Fetch(events))
    ensures Inv(Next(s, Fetch(events)))
  {
    TodoFrame(s, Next(s, Fetch(events)), s.cycle.todo);
  }

  lemma SaveKeepsInv(s: State)
    requires Inv(s) && Enabled(s, Save)
    ensures Inv(Next(s, Save))
  {
    var item := s.cycle.stage.item;
    var f := Saved(item.slot, s.cycle.n);
    OneMoreFact(s.history, f);
    MembersStay(s.history, f);
    UpsertKeepsOneRow(s, item.slot.owner, PeriodicSaveName(item.slot.session), s.cycle.stage.events);
    TodoFrame(s, Next(s, Save), s.cycle.todo);
  }

  lemma RecordKeepsInv(s: State)
    requires Inv(s) && Enabled(s, Record)
    ensures Inv(Next(s, Record))
  {
    var item := s.cycle.stage.item;
    var f := Recorded(item.slot, s.cycle.now, s.cycle.stage.events, item.interval);
    OneMoreFact(s.history, f);
    MembersStay(s.history, f);
    TodoFrame(s, Next(s, Record), s.cycle.todo);
    assert Spaced(s.history + [f]);
  }

  lemma FailKeepsInv(s: State)
    requires Inv(s) && Enabled(s, Fail)
    ensures Inv(Next(s, Fail))
  {
    TodoFrame(s, Next(s, Fail), s.cycle.todo);
  }

  lemma MoveKeepsInv(s: State, m: Move)
    requires Inv(s) && Enabled(s, m)
    ensures Inv(Next(s, m))
  {
    match m
    case Roster(_) => if s.cycle.On? { CycleKept(s, Next(s, m)); }
    case Ask(slot, staff, enabled, interval) => AskKeepsInv(s, slot, staff, enabled, interval);
    case Apply(i) => ApplyKeepsInv(s, i);
    case ManualSave(owner, name, events) => ManualSaveKeepsInv(s, owner, name, events);
    case DeleteSave(owner, id) => DeleteSaveKeepsInv(s, owner, id);
    case Begin(now, order) => BeginKeepsInv(s, now, order);
    case Choose => ChooseKeepsInv(s);
    case Unchecked => TodoFrame(s, Next(s, Unchecked), s.cycle.todo[1..]);
    case Disable => DisableKeepsInv(s);
    case Fetch(events) => FetchKeepsInv(s, events);
    case Save => SaveKeepsInv(s);
    case Record => RecordKeepsInv(s);
    case Fail => FailKeepsInv(s);
    case End =>
  }

  lemma {:induction false} RunKeepsInv(s: State, moves: seq<Move>)
    requires Inv(s) && Legal(s, moves)
    ensures Inv(After(s, moves))
    decreases moves
  {
    if moves != [] {
      MoveKeepsInv(s, moves[0]);
      RunKeepsInv(Next(s, moves[0]), moves[1..]);
    }
  }

  // ---------------------------------------------------------------- what a whole run guarantees

  lemma {:induction false} LegalPrefix(s: State, moves: seq<Move>, k: nat)
    requires Legal(s, moves) && k <= |moves|
    ensures Legal(s, moves[..k])
    ensures k < |moves| ==>
              && Enabled(After(s, moves[..k]), moves[k]) && Legal(s, moves[..k + 1])
              && After(s, moves[..k + 1]) == Next(After(s, moves[..k]), moves[k])
    decreases k
  {
    if k == 0 {
      if moves != [] { assert moves[..1][1..] == []; }
    } else {
      LegalPrefix(Next(s, moves[0]), moves[1..], k - 1);
      assert moves[..k][1..] == moves[1..][..k - 1];
      if k < |moves| { assert moves[..k + 1][1..] == moves[1..][..k]; }
    }
  }

  /** The state a run from the start has reached before its k-th move. */
  ghost function StateAt(moves: seq<Move>, k: nat): State
    requires Legal(Initial, moves) && k <= |moves|
  {
    LegalPrefix(Initial, moves, k);
    After(Initial, moves[..k])
  }

  lemma Onward(moves: seq<Move>, k: nat)
    requires Legal(Initial, moves) && k < |moves|
    ensures Enabled(StateAt(moves, k), moves[k]) && StateAt(moves, k + 1) == Next(StateAt(moves, k), moves[k])
  {
    LegalPrefix(Initial, moves, k);
  }

  /** Which move can have written a fact, and in which state. */
  ghost predicate Writes(s: State, m: Move, f: Fact) {
    match f
    case Allowed(edit) => m == Ask(edit.slot, true, edit.enabled, edit.interval) && edit.slot in s.standing
    case Applied(edit) => m.Apply? && m.i < |s.edits| && s.edits[m.i] == edit
    case Checked(slot, n, standing) =>
      m.Choose? && s.cycle.On? && s.cycle.n == n && s.cycle.todo != [] && s.cycle.todo[0].slot == slot &&
          (standing <==> slot in s.standing)
    case DisabledByLoop(slot, _) =>
      m.Disable? && s.cycle.On? && s.cycle.stage.Disabling? && s.cycle.stage.item.slot == slot
    case Saved(slot, n) =>
      m.Save? && s.cycle.On? && s.cycle.n == n && s.cycle.stage.Saving? && s.cycle.stage.item.slot == slot
    case Recorded(slot, now, events, interval) =>
      m.Record? && s.cycle.On? && s.cycle.now == now && s.cycle.stage.Recording? && s.cycle.stage.events == events
      && s.cycle.stage.item.slot == slot && s.cycle.stage.item.interval == interval
  }

  lemma MoveWrites(s: State, m: Move, f: Fact)
    requires Enabled(s, m) && f in Next(s, m).history && f !in s.history
    ensures Writes(s, m, f)
  {
  }

  lemma {:induction false} FactOrigin(moves: seq<Move>, k: nat, f: Fact) returns (j: nat)
    requires Legal(Initial, moves) && k <= |moves| && f in StateAt(moves, k).history
    ensures j < k && Writes(StateAt(moves, j), moves[j], f)
    decreases k
  {
    if k > 0 {
      Onward(moves, k - 1);
      if f in StateAt(moves, k - 1).history {
        j := FactOrigin(moves, k - 1, f);
      } else {
        MoveWrites(StateAt(moves, k - 1), moves[k - 1], f);
        j := k - 1;
      }
    }
  }

  lemma InvAt(moves: seq<Move>, k: nat)
    requires Legal(Initial, moves) && k <= |moves|
    ensures Inv(StateAt(moves, k))
  {
    LegalPrefix(Initial, moves, k);
    RunKeepsInv(Initial, moves[..k]);
  }

  /** The last roster change from move j up to move k, if any, keeps the slot. */
  ghost predicate RosterKeeps(moves: seq<Move>, j: nat, k: nat, slot: Slot)
    requires j <= k <= |moves|
    decreases k
  {
    j == k || (if moves[k - 1].Roster? then slot in moves[k - 1].standing else RosterKeeps(moves, j, k - 1, slot))
  }

  lemma {:induction false} StandingIsTheLastRoster(moves: seq<Move>, j: nat, k: nat, slot: Slot)
    requires Legal(Initial, moves) && j <= k <= |moves| && slot in StateAt(moves, j).standing
    ensures slot in StateAt(moves, k).standing <==> RosterKeeps(moves, j, k, slot)
    decreases k
  {
    if j < k {
      Onward(moves, k - 1);
      StandingIsTheLastRoster(moves, j, k - 1, slot);
    }
  }

  lemma {:induction false} NoRosterKeeps(moves: seq<Move>, j: nat, k: nat, slot: Slot)
    requires j <= k <= |moves| && forall x :: j <= x < k ==> !moves[x].Roster?
    ensures RosterKeeps(moves, j, k, slot)
    decreases k
  {
    if j < k { NoRosterKeeps(moves, j, k - 1, slot); }
  }

  /** The loop fetches, saves and records a slot only after it checked that very slot in the same cycle and
      found its owner on the roster. Standing still holds then exactly when the last roster change since the
      check, if any, keeps it; without a change it does. */
  lemma SavesNeedStanding(moves: seq<Move>, k: nat) returns (j: nat)
    requires Legal(Initial, moves) && k < |moves| && (moves[k].Fetch? || moves[k].Save? || moves[k].Record?)
    ensures j < k && moves[j] == Choose
    ensures StateAt(moves, k).cycle.On? && !StateAt(moves, k).cycle.stage.Choosing?
    ensures StateAt(moves, j).cycle.On? && StateAt(moves, j).cycle.n == StateAt(moves, k).cycle.n
    ensures var slot := StateAt(moves, k).cycle.stage.item.slot;
            && StateAt(moves, j).cycle.todo != [] && StateAt(moves, j).cycle.todo[0].slot == slot
            && slot in StateAt(moves, j).standing
            && (slot in StateAt(moves, k).standing <==> RosterKeeps(moves, j, k, slot))
            && ((forall x :: j <= x < k ==> !moves[x].Roster?) ==> slot in StateAt(moves, k).standing)
  {
    InvAt(moves, k);
    Onward(moves, k);
    var cycle := StateAt(moves, k).cycle;
    j := FactOrigin(moves, k, Checked(cycle.stage.item.slot, cycle.n, true));
    StandingIsTheLastRoster(moves, j, k, cycle.stage.item.slot);
    if forall x :: j <= x < k ==> !moves[x].Roster? { NoRosterKeeps(moves, j, k, cycle.stage.item.slot); }
  }

  /** An edit reaches the table only after a staff request for exactly that edit found standing. */
  lemma EditsNeedStanding(moves: seq<Move>, k: nat) returns (j: nat)
    requires Legal(Initial, moves) && k < |moves| && moves[k].Apply?
    ensures moves[k].i < |StateAt(moves, k).edits| && j < k
    ensures var edit := StateAt(moves, k).edits[moves[k].i];
            moves[j] == Ask(edit.slot, true, edit.enabled, edit.interval) && edit.slot in StateAt(moves, j).standing
  {
    InvAt(moves, k);
    Onward(moves, k);
    j := FactOrigin(moves, k, Allowed(StateAt(moves, k).edits[moves[k].i]));
  }

  // ---------------------------------------------------------------- one edit per request

  ghost function TimesAllowed(h: seq<Fact>, edit: Edit): nat {
    if h == [] then 0 else TimesAllowed(Front(h), edit) + if Last(h) == Allowed(edit) then 1 else 0
  }

  ghost function TimesApplied(h: seq<Fact>, edit: Edit): nat {
    if h == [] then 0 else TimesApplied(Front(h), edit) + if Last(h) == Applied(edit) then 1 else 0
  }

  /** Every granted request is applied once or still pending. */
  ghost predicate Balanced(s: State, edit: Edit) {
    TimesAllowed(s.history, edit) == TimesApplied(s.history, edit) + multiset(s.edits)[edit]
  }

  lemma CountOneMore(h: seq<Fact>, f: Fact, edit: Edit)
    ensures TimesAllowed(h + [f], edit) == TimesAllowed(h, edit) + if f == Allowed(edit) then 1 else 0
    ensures TimesApplied(h + [f], edit) == TimesApplied(h, edit) + if f == Applied(edit) then 1 else 0
  {
    assert Front(h + [f]) == h;
  }

  lemma TakeOne(edits: seq<Edit>, i: nat)
    requires i < |edits|
    ensures multiset(edits) == multiset(edits[..i] + edits[i + 1..]) + multiset{edits[i]}
  {
    assert edits == edits[..i] + ([edits[i]] + edits[i + 1..]);
  }

  lemma ApplyKeepsBalance(s: State, i: nat, edit: Edit)
    requires i < |s.edits| && Balanced(s, edit)
    ensures Balanced(Next(s, Apply(i)), edit)
  {
    hide TimesAllowed, TimesApplied;
    CountOneMore(s.history, Applied(s.edits[i]), edit);
    TakeOne(s.edits, i);
  }

  lemma FactKeepsBalance(h: seq<Fact>, t: State, f: Fact, edit: Edit)
    requires !f.Allowed? && !f.Applied? && t.history == h + [f]
    requires TimesAllowed(h, edit) == TimesApplied(h, edit) + multiset(t.edits)[edit]
    ensures Balanced(t, edit)
  {
    CountOneMore(h, f, edit);
  }

  lemma AskKeepsBalance(s: State, m: Move, edit: Edit)
    requires m.Ask? && Enabled(s, m) && Balanced(s, edit)
    ensures Balanced(Next(s, m), edit)
  {
    CountOneMore(s.history, Allowed(Edit(m.slot, m.enabled, m.interval)), edit);
  }

  lemma MoveKeepsBalance(s: State, m: Move, edit: Edit)
    requires Enabled(s, m) && Balanced(s, edit)
    ensures Balanced(Next(s, m), edit)
  {
    hide TimesAllowed, TimesApplied, FindSave, Overwrite, ItemsFor, WithoutSave;
    var t := Next(s, m);
    if m.Apply? {
      ApplyKeepsBalance(s, m.i, edit);
    } else if m.Ask? {
      AskKeepsBalance(s, m, edit);
    } else if t.history != s.history {
      FactKeepsBalance(s.history, t, Last(t.history), edit);
    }
  }

  /** However often an edit is requested, it is applied no more often than its request was granted. */
  lemma {:induction false} EachEditIsAppliedOnce(moves: seq<Move>, k: nat, edit: Edit)
    requires Legal(Initial, moves) && k <= |moves|
    ensures Balanced(StateAt(moves, k), edit)
    decreases k
  {
    if k == 0 {
      assert moves[..0] == [];
    } else {
      Onward(moves, k - 1);
      EachEditIsAppliedOnce(moves, k - 1, edit);
      MoveKeepsBalance(StateAt(moves, k - 1), moves[k - 1], edit);
    }
  }

  /** No edit of the slot is applied from move i up to move k. */
  ghost predicate NoEdit(moves: seq<Move>, i: nat, k: nat, slot: Slot)
    requires Legal(Initial, moves) && i <= k <= |moves|
    decreases k
  {
    i == k || (NoEdit(moves, i, k - 1, slot) &&
               !(moves[k - 1].Apply? && moves[k - 1].i < |StateAt(moves, k - 1).edits| &&
                 StateAt(moves, k - 1).edits[moves[k - 1].i].slot == slot))
  }

  /** A policy the loop has disabled stays disabled until somebody's edit of it is applied. */
  lemma {:induction false} DisabledStaysDisabled(moves: seq<Move>, i: nat, k: nat)
    requires Legal(Initial, moves) && i < k <= |moves| && moves[i] == Disable
    requires StateAt(moves, i).cycle.On? && StateAt(moves, i).cycle.stage.Disabling?
    requires NoEdit(moves, i + 1, k, StateAt(moves, i).cycle.stage.item.slot)
    ensures StateAt(moves, i).cycle.stage.item.slot in StateAt(moves, k).policies
    ensures !PolicyEnabled(StateAt(moves, k).policies, StateAt(moves, i).cycle.stage.item.slot)
    decreases k
  {
    Onward(moves, k - 1);
    if i + 1 < k { DisabledStaysDisabled(moves, i, k - 1); }
  }

  /** An edit that passed its check and would enable the slot is still to be applied. */
  ghost predicate PendingEnable(edits: seq<Edit>, slot: Slot) {
    exists i :: 0 <= i < |edits| && edits[i].slot == slot && edits[i].enabled
  }

  /** A staff request to enable the slot finds standing. */
  ghost predicate Grants(s: State, m: Move, slot: Slot) {
    m.Ask? && m.slot == slot && m.staff && m.enabled && slot in s.standing
  }

  lemma GrantOrPending(s: State, m: Move, slot: Slot)
    requires Enabled(s, m) && !PolicyEnabled(s.policies, slot) && !PendingEnable(s.edits, slot) && !Grants(s, m, slot)
    ensures !PolicyEnabled(Next(s, m).policies, slot) && !PendingEnable(Next(s, m).edits, slot)
  {
    var t := Next(s, m);
    if m.Apply? {
      forall k | 0 <= k < |t.edits| ensures t.edits[k] == s.edits[if k < m.i then k else k + 1] {
      }
    }
  }

  /** A policy the loop has disabled while no enabling edit was pending is enabled again only after a staff
      request, made after the disabling, found standing. */
  lemma {:induction false} ReenablingNeedsFreshStanding(moves: seq<Move>, i: nat, k: nat, slot: Slot) returns (j: nat)
    requires Legal(Initial, moves) && i < k <= |moves| && moves[i] == Disable
    requires StateAt(moves, i).cycle.On? && StateAt(moves, i).cycle.stage.Disabling? &&
             StateAt(moves, i).cycle.stage.item.slot == slot
    requires !PendingEnable(StateAt(moves, i).edits, slot)
    requires PolicyEnabled(StateAt(moves, k).policies, slot) || PendingEnable(StateAt(moves, k).edits, slot)
    ensures i < j < k && Grants(StateAt(moves, j), moves[j], slot)
    decreases k
  {
    hide FindSave, Overwrite, ItemsFor, WithoutSave;
    Onward(moves, k - 1);
    if i + 1 < k {
      var s := StateAt(moves, k - 1);
      if PolicyEnabled(s.policies, slot) || PendingEnable(s.edits, slot) {
        j := ReenablingNeedsFreshStanding(moves, i, k - 1, slot);
      } else {
        j := k - 1;
        if !Grants(s, moves[j], slot) { GrantOrPending(s, moves[j], slot); }
      }
    }
  }

  ghost predicate NoGrant(s: State, moves: seq<Move>, slot: Slot)
    requires Legal(s, moves)
    decreases moves
  {
    moves == [] || (!Grants(s, moves[0], slot) && NoGrant(Next(s, moves[0]), moves[1..], slot))
  }

  lemma {:induction false} WithoutGrantStaysDisabled(s: State, moves: seq<Move>, slot: Slot)
    requires Legal(s, moves) && NoGrant(s, moves, slot)
    requires !PolicyEnabled(s.policies, slot) && !PendingEnable(s.edits, slot)
    ensures !PolicyEnabled(After(s, moves).policies, slot)
    decreases moves
  {
    if moves != [] {
      GrantOrPending(s, moves[0], slot);
      WithoutGrantStaysDisabled(Next(s, moves[0]), moves[1..], slot);
    }
  }

  lemma OneApplyEnables(s: State, slot: Slot) returns (moves: seq<Move>)
    requires PendingEnable(s.edits, slot)
    ensures Legal(s, moves) && NoGrant(s, moves, slot) && PolicyEnabled(After(s, moves).policies, slot)
  {
    var i :| 0 <= i < |s.edits| && s.edits[i].slot == slot && s.edits[i].enabled;
    moves := [Apply(i)];
    assert moves[1..] == [];
  }

  ghost predicate KeptDisabledBy(s: State, moves: seq<Move>, slot: Slot) {
    Legal(s, moves) && NoGrant(s, moves, slot) ==> !PolicyEnabled(After(s, moves).policies, slot)
  }

  /** A disabled policy stays disabled in every future without a fresh grant if and only if no enabling edit
      of it is pending; a pending one may be applied at once. */
  lemma StaysDisabledExactlyWhenNothingPends(s: State, slot: Slot)
    requires !PolicyEnabled(s.policies, slot)
    ensures (forall moves :: KeptDisabledBy(s, moves, slot)) <==> !PendingEnable(s.edits, slot)
  {
    if PendingEnable(s.edits, slot) {
      var moves := OneApplyEnables(s, slot);
      assert !KeptDisabledBy(s, moves, slot);
    } else {
      forall moves ensures KeptDisabledBy(s, moves, slot) {
        if Legal(s, moves) && NoGrant(s, moves, slot) { WithoutGrantStaysDisabled(s, moves, slot); }
      }
    }
  }

  /** The loop found no standing for the slot and is about to disable its policy. */
  ghost predicate AboutToDisable(s: State, slot: Slot) {
    s.cycle.On? && s.cycle.stage.Disabling? && s.cycle.stage.item.slot == slot
  }

  /** No edit of the slot is applied, and it has standing whenever the loop checks. */
  ghost predicate LeftAlone(s: State, moves: seq<Move>, slot: Slot)
    requires Legal(s, moves)
    decreases moves
  {
    moves == [] ||
    (&& !(moves[0].Apply? && s.edits[moves[0].i].slot == slot)
     && (moves[0].Choose? ==> slot in s.standing)
     && LeftAlone(Next(s, moves[0]), moves[1..], slot))
  }

  lemma MoveKeepsEnabled(s: State, m: Move, slot: Slot)
    requires Enabled(s, m) && PolicyEnabled(s.policies, slot) && !AboutToDisable(s, slot)
    requires !(m.Apply? && s.edits[m.i].slot == slot) && (m.Choose? ==> slot in s.standing)
    ensures PolicyEnabled(Next(s, m).policies, slot) && Next(s, m).policies[slot] == s.policies[slot]
    ensures !AboutToDisable(Next(s, m), slot)
  {
    hide FindSave, Overwrite, ItemsFor, WithoutSave;
  }

  lemma {:induction false} LeftAloneStays(s: State, moves: seq<Move>, slot: Slot)
    requires Legal(s, moves) && LeftAlone(s, moves, slot)
    requires PolicyEnabled(s.policies, slot) && !AboutToDisable(s, slot)
    ensures PolicyEnabled(After(s, moves).policies, slot) && After(s, moves).policies[slot] == s.policies[slot]
    decreases moves
  {
    if moves != [] {
      hide Enabled, Next, PolicyEnabled, AboutToDisable;
      MoveKeepsEnabled(s, moves[0], slot);
      LeftAloneStays(Next(s, moves[0]), moves[1..], slot);
    }
  }

  lemma DisableWrites(s: State, slot: Slot)
    requires AboutToDisable(s, slot)
    ensures Legal(s, [Disable]) && LeftAlone(s, [Disable], slot) && !PolicyEnabled(After(s, [Disable]).policies, slot)
  {
    assert [Disable][1..] == [];
  }

  ghost predicate StaysAsItIs(s: State, moves: seq<Move>, slot: Slot)
    requires slot in s.policies
  {
    Legal(s, moves) && LeftAlone(s, moves, slot) ==>
      slot in After(s, moves).policies && After(s, moves).policies[slot] == s.policies[slot]
  }

  /** An enabled policy, such as an edit just applied leaves it, stays what it is in every future that applies
      no other edit of it and finds standing whenever it checks, if and only if the loop is not about to
      disable it. */
  lemma EnabledStaysExactlyWhen(s: State, slot: Slot)
    requires PolicyEnabled(s.policies, slot)
    ensures (forall moves :: StaysAsItIs(s, moves, slot)) <==> !AboutToDisable(s, slot)
  {
    if AboutToDisable(s, slot) {
      DisableWrites(s, slot);
      assert !StaysAsItIs(s, [Disable], slot);
    } else {
      forall moves ensures StaysAsItIs(s, moves, slot) {
        if Legal(s, moves) && LeftAlone(s, moves, slot) { LeftAloneStays(s, moves, slot); }
      }
    }
  }

  ghost predicate ListedIn(s: State, item: Item) {
    PolicyEnabled(s.policies, item.slot) && item == ItemFor(s, item.slot)
  }

  ghost predicate AllListed(s: State, todo: seq<Item>) {
    todo == [] || (ListedIn(s, todo[0]) && AllListed(s, todo[1..]))
  }

  lemma {:induction false} ItemsAreListed(s: State, order: seq<Slot>)
    requires forall slot :: slot in order ==> slot in s.policies && PolicyEnabled(s.policies, slot)
    ensures AllListed(s, ItemsFor(s, order))
  {
    if order != [] {
      assert forall slot :: slot in order[1..] ==> slot in order;
      ItemsAreListed(s, order[1..]);
    }
  }

  /** Everything a cycle works on is what it listed when it began: enabled then, with the interval of then. */
  lemma {:induction false} CycleBegan(moves: seq<Move>, k: nat) returns (j: nat)
    requires Legal(Initial, moves) && k <= |moves| && StateAt(moves, k).cycle.On?
    ensures j < k && moves[j].Begin? && moves[j].now == StateAt(moves, k).cycle.now
    ensures StateAt(moves, j).cycles + 1 == StateAt(moves, k).cycle.n
    ensures AllListed(StateAt(moves, j), StateAt(moves, k).cycle.todo)
    ensures !StateAt(moves, k).cycle.stage.Choosing? ==> ListedIn(StateAt(moves, j), StateAt(moves, k).cycle.stage.item)
    decreases k
  {
    if k > 0 {
      Onward(moves, k - 1);
      var s := StateAt(moves, k - 1);
      if s.cycle.On? {
        j := CycleBegan(moves, k - 1);
      } else {
        ItemsAreListed(s, moves[k - 1].order);
        j := k - 1;
      }
    }
  }

  /** Two recorded saves of one slot with none between. */
  ghost predicate Consecutive(h: seq<Fact>, i: nat, k: nat) {
    && i < k < |h| && h[i].Recorded? && h[k].Recorded? && h[i].slot == h[k].slot
    && forall x :: i < x < k && h[x].Recorded? ==> h[x].slot != h[i].slot
  }

  lemma {:induction false} LastRecordedIs(h: seq<Fact>, i: nat)
    requires i < |h| && h[i].Recorded? && forall x :: i < x < |h| && h[x].Recorded? ==> h[x].slot != h[i].slot
    ensures LastRecorded(h, h[i].slot) == Some(h[i])
    decreases |h|
  {
    if i < |h| - 1 { LastRecordedIs(Front(h), i); }
  }

  lemma {:induction false} SpacedEverywhere(h: seq<Fact>, i: nat, k: nat)
    requires Spaced(h) && Consecutive(h, i, k)
    ensures h[k].now - h[i].now >= (h[k].interval * 60) as real && h[k].events != h[i].events
    decreases |h|
  {
    if k == |h| - 1 {
      LastRecordedIs(Front(h), i);
    } else {
      SpacedEverywhere(Front(h), i, k);
    }
  }

  /** Consecutive recorded saves of a slot are at least the interval the later cycle listed apart, and the
      ledger moved in between. */
  lemma RecordedSavesAreSpaced(moves: seq<Move>, i: nat, k: nat)
    requires Legal(Initial, moves) && Consecutive(After(Initial, moves).history, i, k)
    ensures var h := After(Initial, moves).history;
            h[k].now - h[i].now >= (h[k].interval * 60) as real && h[k].events != h[i].events
  {
    RunKeepsInv(Initial, moves);
    SpacedEverywhere(After(Initial, moves).history, i, k);
  }

  lemma {:induction false} CyclesOnlyGrow(moves: seq<Move>, i: nat, k: nat)
    requires Legal(Initial, moves) && i <= k <= |moves|
    ensures StateAt(moves, i).cycles <= StateAt(moves, k).cycles
    decreases k
  {
    if i < k {
      Onward(moves, k - 1);
      CyclesOnlyGrow(moves, i, k - 1);
    }
  }

  /** A cycle began once. */
  lemma SameBeginning(moves: seq<Move>, i: nat, j: nat)
    requires Legal(Initial, moves) && i < |moves| && j < |moves| && moves[i].Begin? && moves[j].Begin?
    requires StateAt(moves, i).cycles == StateAt(moves, j).cycles
    ensures i == j
  {
    Onward(moves, i);
    Onward(moves, j);
    if i < j { CyclesOnlyGrow(moves, i + 1, j); }
    if j < i { CyclesOnlyGrow(moves, j + 1, i); }
  }

  ghost predicate AppliesTo(s: State, m: Move, slot: Slot) {
    m.Apply? && m.i < |s.edits| && s.edits[m.i].slot == slot
  }

  /** The last edit of the slot applied from move i up to move k, if any, keeps the interval; so does what
      the loop writes when it disables the policy. */
  ghost predicate LastEditKeeps(moves: seq<Move>, i: nat, k: nat, slot: Slot, interval: int)
    requires Legal(Initial, moves) && i <= k <= |moves|
    decreases k
  {
    || i == k
    || (var s := StateAt(moves, k - 1);
        if AppliesTo(s, moves[k - 1], slot) then EffectiveInterval(s.edits[moves[k - 1].i].interval) == interval
        else (moves[k - 1] == Disable && s.cycle.On? && s.cycle.stage.Disabling? && s.cycle.stage.item.slot == slot)
             || LastEditKeeps(moves, i, k - 1, slot, interval))
  }

  lemma GoesOnOrBegins(s: State, m: Move)
    requires Enabled(s, m) && Next(s, m).cycle.On?
    ensures (s.cycle.On? && s.cycle.n == Next(s, m).cycle.n) || Next(s, m).cycle.n == s.cycles + 1
  {
  }

  lemma BeginCounts(s: State, m: Move)
    requires Enabled(s, m) && m.Begin?
    ensures Next(s, m).cycles == s.cycles + 1
  {
  }

  lemma CycleWasOn(moves: seq<Move>, j: nat, k: nat)
    requires Legal(Initial, moves) && j + 1 < k <= |moves| && moves[j].Begin?
    requires StateAt(moves, k).cycle.On? && StateAt(moves, k).cycle.n == StateAt(moves, j).cycles + 1
    ensures StateAt(moves, k - 1).cycle.On? && StateAt(moves, k - 1).cycle.n == StateAt(moves, k).cycle.n
  {
    hide Next, Enabled, Legal, After, StateAt;
    Onward(moves, k - 1);
    Onward(moves, j);
    GoesOnOrBegins(StateAt(moves, k - 1), moves[k - 1]);
    BeginCounts(StateAt(moves, j), moves[j]);
    CyclesOnlyGrow(moves, j + 1, k - 1);
  }

  /** What the loop writes when it disables a policy is the interval it listed. */
  lemma DisableKeepsInterval(moves: seq<Move>, j: nat, k: nat)
    requires Legal(Initial, moves) && j < k < |moves| && moves[j].Begin? && moves[k] == Disable
    requires StateAt(moves, k).cycle.On? && StateAt(moves, k).cycle.n == StateAt(moves, j).cycles + 1
    ensures Enabled(StateAt(moves, k), Disable)
    ensures var item := StateAt(moves, k).cycle.stage.item;
            item.slot in StateAt(moves, j).policies &&
                item.interval == EffectiveInterval(StateAt(moves, j).policies[item.slot].interval)
  {
    Onward(moves, k);
    var listed := CycleBegan(moves, k);
    SameBeginning(moves, j, listed);
  }

  /** During a cycle only an edit changes a listed policy's interval. */
  lemma {:induction false} OnlyEditsChangeIntervals(moves: seq<Move>, j: nat, k: nat, slot: Slot)
    requires Legal(Initial, moves) && j < k <= |moves| && moves[j].Begin?
    requires StateAt(moves, k).cycle.On? && StateAt(moves, k).cycle.n == StateAt(moves, j).cycles + 1
    requires slot in StateAt(moves, j).policies
    ensures slot in StateAt(moves, k).policies
    ensures var listed := EffectiveInterval(StateAt(moves, j).policies[slot].interval);
            EffectiveInterval(StateAt(moves, k).policies[slot].interval) == listed <==>
                LastEditKeeps(moves, j + 1, k, slot, listed)
    decreases k
  {
    hide Legal, After, ItemsFor, ItemFor, FindSave, Overwrite, StateAt;
    Onward(moves, k - 1);
    if j + 1 < k {
      CycleWasOn(moves, j, k);
      OnlyEditsChangeIntervals(moves, j, k - 1, slot);
      if moves[k - 1] == Disable { DisableKeepsInterval(moves, j, k - 1); }
    }
  }

  /** When a save is recorded, the interval it kept is the policy's current one exactly when the last edit of
      the slot applied since the cycle began, if any, has that interval. */
  lemma IntervalIsCurrentExactlyWhen(moves: seq<Move>, k: nat) returns (j: nat)
    requires Legal(Initial, moves) && k < |moves| && moves[k] == Record
    ensures j < k && moves[j].Begin? && StateAt(moves, k).cycle.On? && StateAt(moves, k).cycle.stage.Recording?
    ensures var item := StateAt(moves, k).cycle.stage.item;
            && item.slot in StateAt(moves, k).policies
            && (item.interval == EffectiveInterval(StateAt(moves, k).policies[item.slot].interval) <==>
                  LastEditKeeps(moves, j + 1, k, item.slot, item.interval))
  {
    Onward(moves, k);
    j := CycleBegan(moves, k);
    OnlyEditsChangeIntervals(moves, j, k, StateAt(moves, k).cycle.stage.item.slot);
  }

  lemma {:induction false} OneRowApart(saves: seq<SaveRow>, i: nat, k: nat)
    requires OneRowPerName(saves) && i < k < |saves|
    ensures saves[i].owner != saves[k].owner || saves[i].name != saves[k].name
    decreases |saves|
  {
    if i == 0 {
      NotFoundMeansAbsent(saves[1..], saves[0].owner, saves[0].name, k - 1);
    } else {
      OneRowApart(saves[1..], i - 1, k - 1);
    }
  }

  lemma {:induction false} NotFoundMeansAbsent(saves: seq<SaveRow>, owner: string, name: string, k: nat)
    requires FindSave(saves, owner, name).None? && k < |saves|
    ensures saves[k].owner != owner || saves[k].name != name
  {
    if k > 0 { NotFoundMeansAbsent(saves[1..], owner, name, k - 1); }
  }

  /** However manual saves, deletions and the loop interleave, no two rows share owner and name. */
  lemma RowsAreUnique(moves: seq<Move>, i: nat, k: nat)
    requires Legal(Initial, moves) && i < k < |After(Initial, moves).saves|
    ensures var saves := After(Initial, moves).saves;
            saves[i].owner != saves[k].owner || saves[i].name != saves[k].name
  {
    RunKeepsInv(Initial, moves);
    OneRowApart(After(Initial, moves).saves, i, k);
  }

  // ---------------------------------------------------------------- where the guarantee ends

  lemma Then(s: State, m: Move, rest: seq<Move>)
    requires Enabled(s, m) && Legal(Next(s, m), rest)
    ensures Legal(s, [m] + rest) && After(s, [m] + rest) == After(Next(s, m), rest)
  {
    assert ([m] + rest)[1..] == rest;
  }

  lemma {:induction false} Joined(s: State, a: seq<Move>, b: seq<Move>)
    requires Legal(s, a) && Legal(After(s, a), b)
    ensures Legal(s, a + b) && After(s, a + b) == After(After(s, a), b)
    decreases a
  {
    if a == [] {
      assert a + b == b;
    } else {
      Joined(Next(s, a[0]), a[1..], b);
      assert (a + b)[1..] == a[1..] + b;
    }
  }

  lemma AddMove(s: State, a: seq<Move>, m: Move)
    requires Legal(s, a) && Enabled(After(s, a), m)
    ensures Legal(s, a + [m]) && After(s, a + [m]) == Next(After(s, a), m)
  {
    assert Legal(After(s, a), [m]) by { Then(After(s, a), m, []); }
    Then(After(s, a), m, []);
    assert [m] + [] == [m];
    Joined(s, a, [m]);
  }

  /** Two requests for a slot passed their check and the first has been applied. */
  lemma EnabledTwice(slot: Slot) returns (moves: seq<Move>)
    ensures Legal(Initial, moves)
    ensures var t := After(Initial, moves);
            && t.policies == map[slot := Policy(true, 5)] && t.progress == map[] && t.standing == {slot}
            && t.edits == [Edit(slot, true, 5)] && t.cycle == Off && t.cycles == 0
  {
    moves := [];
    var m := Roster({slot}); AddMove(Initial, moves, m); moves := moves + [m];
    m := Ask(slot, true, true, 5); AddMove(Initial, moves, m); moves := moves + [m];
    AddMove(Initial, moves, m); moves := moves + [m];
    m := Apply(0); AddMove(Initial, moves, m); moves := moves + [m];
  }

  /** An edit whose check passed before the loop disabled the policy may land after it. */
  lemma AnEarlierCheckMayReenable(slot: Slot) returns (moves: seq<Move>)
    ensures Legal(Initial, moves) && |moves| > 1 && moves[|moves| - 2] == Disable
    ensures slot !in After(Initial, moves).standing && PolicyEnabled(After(Initial, moves).policies, slot)
  {
    moves := EnabledTwice(slot);
    var m := Roster({}); AddMove(Initial, moves, m); moves := moves + [m];
    m := Begin(0.0, [slot]); AddMove(Initial, moves, m); moves := moves + [m];
    m := Choose; AddMove(Initial, moves, m); moves := moves + [m];
    m := Disable; AddMove(Initial, moves, m); moves := moves + [m];
    m := Apply(0); AddMove(Initial, moves, m); moves := moves + [m];
  }

  lemma OneItem(s: State, slot: Slot)
    requires slot in s.policies
    ensures ItemsFor(s, [slot]) == [ItemFor(s, slot)]
  {
    assert [slot][1..] == [];
  }

  lemma CheckFailed(slot: Slot) returns (moves: seq<Move>)
    ensures Legal(Initial, moves)
    ensures var t := After(Initial, moves);
            && t.policies == map[slot := Policy(true, 5)] && t.standing == {} && t.edits == []
            && t.cycle == On(1, 0.0, [], Disabling(Item(slot, 5, -1, None)))
  {
    hide Legal, After;
    moves := EnabledTwice(slot);
    var m := Apply(0); AddMove(Initial, moves, m); moves := moves + [m];
    m := Roster({}); AddMove(Initial, moves, m); moves := moves + [m];
    OneItem(After(Initial, moves), slot);
    m := Begin(0.0, [slot]); AddMove(Initial, moves, m); moves := moves + [m];
    m := Choose; AddMove(Initial, moves, m); moves := moves + [m];
  }

  lemma GrantedTooLate(slot: Slot) returns (moves: seq<Move>)
    ensures Legal(Initial, moves)
    ensures var t := After(Initial, moves);
            && t.policies == map[slot := Policy(true, 5)] && t.standing == {slot} && t.edits == [Edit(slot, true, 10)]
            && t.cycle == On(1, 0.0, [], Disabling(Item(slot, 5, -1, None)))
            && Allowed(Edit(slot, true, 10)) in t.history
  {
    hide Legal, After;
    moves := CheckFailed(slot);
    var m := Roster({slot}); AddMove(Initial, moves, m); moves := moves + [m];
    m := Ask(slot, true, true, 10); AddMove(Initial, moves, m); moves := moves + [m];
  }

  /** The check fails, the slot regains standing, a request to enable it is granted and applied, and then the
      loop disables it all the same: it has standing and nothing is pending. */
  lemma AFreshEditMayBeOverwritten(slot: Slot) returns (moves: seq<Move>)
    ensures Legal(Initial, moves) && |moves| > 1
    ensures moves[|moves| - 2] == Apply(0) && moves[|moves| - 1] == Disable
    ensures var t := After(Initial, moves);
            slot in t.standing && t.edits == [] && t.policies == map[slot := Policy(false, 5)]
    ensures Allowed(Edit(slot, true, 10)) in After(Initial, moves).history
  {
    hide Legal, After;
    moves := GrantedTooLate(slot);
    var m := Apply(0); AddMove(Initial, moves, m); moves := moves + [m];
    m := Disable; AddMove(Initial, moves, m); moves := moves + [m];
  }

  lemma FetchedOnce(slot: Slot) returns (moves: seq<Move>)
    ensures Legal(Initial, moves)
    ensures var t := After(Initial, moves);
            && t.policies == map[slot := Policy(true, 5)] && t.progress == map[] && t.standing == {slot}
            && t.edits == [Edit(slot, true, 5)] && t.cycle == On(1, 0.0, [], Saving(Item(slot, 5, -1, None), 0))
  {
    moves := EnabledTwice(slot);
    OneItem(After(Initial, moves), slot);
    var m := Begin(0.0, [slot]); AddMove(Initial, moves, m); moves := moves + [m];
    m := Choose; AddMove(Initial, moves, m); moves := moves + [m];
    m := Fetch(0); AddMove(Initial, moves, m); moves := moves + [m];
  }

  /** The check and the save are separate steps: a roster change between them does not stop the save. */
  lemma StandingMayLapseBeforeTheSave(slot: Slot) returns (moves: seq<Move>)
    ensures Legal(Initial, moves) && |moves| > 0 && moves[|moves| - 1] == Save
    ensures slot !in After(Initial, moves).standing && Saved(slot, 1) in After(Initial, moves).history
  {
    hide FindSave, Overwrite, Legal, After;
    moves := FetchedOnce(slot);
    var m := Roster({}); AddMove(Initial, moves, m); moves := moves + [m];
    m := Save; AddMove(Initial, moves, m); moves := moves + [m];
  }

  /** The slot was saved at time 0, and two further edits passed their check. */
  lemma SavedOnce(slot: Slot) returns (moves: seq<Move>)
    ensures Legal(Initial, moves)
    ensures var t := After(Initial, moves);
            && t.policies == map[slot := Policy(true, 5)] && t.progress == map[slot := Progress(0, 0.0)]
            && t.standing == {slot} && t.edits == [Edit(slot, true, 5), Edit(slot, true, 1440)] && t.cycle == Off
            && Recorded(slot, 0.0, 0, 5) in t.history
  {
    moves := FetchedOnce(slot);
    var m := Save; AddMove(Initial, moves, m); moves := moves + [m];
    m := Record; AddMove(Initial, moves, m); moves := moves + [m];
    m := End; AddMove(Initial, moves, m); moves := moves + [m];
    m := Ask(slot, true, true, 1440); AddMove(Initial, moves, m); moves := moves + [m];
  }

  lemma EditedWhileFetching(slot: Slot) returns (moves: seq<Move>)
    ensures Legal(Initial, moves)
    ensures var t := After(Initial, moves);
            && t.policies == map[slot := Policy(true, 1440)] && Recorded(slot, 0.0, 0, 5) in t.history
            && t.cycle.On? && t.cycle.now == 300.0 && t.cycle.stage == Fetching(Item(slot, 5, 0, Some(0.0)))
  {
    moves := SavedOnce(slot);
    OneItem(After(Initial, moves), slot);
    var m := Begin(300.0, [slot]); AddMove(Initial, moves, m); moves := moves + [m];
    m := Choose; AddMove(Initial, moves, m); moves := moves + [m];
    m := Apply(1); AddMove(Initial, moves, m); moves := moves + [m];
  }

  /** An edit applied while a cycle runs does not hold that cycle's save back: two saves five minutes apart
      under a policy of a day. */
  lemma AnEditMayComeTooLate(slot: Slot) returns (moves: seq<Move>)
    ensures Legal(Initial, moves)
    ensures var t := After(Initial, moves);
            && slot in t.policies && t.policies[slot].interval == 1440
            && Recorded(slot, 0.0, 0, 5) in t.history && Recorded(slot, 300.0, 1, 5) in t.history
  {
    moves := EditedWhileFetching(slot);
    var m := Fetch(1); AddMove(Initial, moves, m); moves := moves + [m];
    m := Save; AddMove(Initial, moves, m); moves := moves + [m];
    m := Record; AddMove(Initial, moves, m); moves := moves + [m];
  }

  lemma {:induction false} FoundAfterOverwrite(saves: seq<SaveRow>, owner: string, name: string, events: nat,
                                               who: string, other: string)
    requires FindSave(saves, owner, name).Some?
    ensures var (before, after) :=
              (FindSave(saves, who, other), FindSave(Overwrite(saves, owner, name, events), who, other));
            if who == owner && other == name then after == Some(before.value.(events := events)) else after == before
  {
    if !(saves[0].owner == owner && saves[0].name == name) {
      FoundAfterOverwrite(saves[1..], owner, name, events, who, other);
    }
  }

  lemma {:induction false} FoundAfterAdd(saves: seq<SaveRow>, row: SaveRow, who: string, other: string)
    ensures FindSave(saves + [row], who, other) ==
            if FindSave(saves, who, other).Some? then FindSave(saves, who, other)
            else if row.owner == who && row.name == other then Some(row) else None
  {
    if saves != [] {
      assert (saves + [row])[1..] == saves[1..] + [row];
      FoundAfterAdd(saves[1..], row, who, other);
    } else {
      assert [] + [row] == [row];
    }
  }

  /** After a save the row of that owner and name has its events, an old row its id, and all others are found as
      before. */
  lemma FoundAfterUpsert(s: State, owner: string, name: string, events: nat, who: string, other: string)
    ensures var (before, after) :=
              (FindSave(s.saves, who, other), FindSave(Upserted(s, owner, name, events).saves, who, other));
            if who == owner && other == name then
              && after.Some? && after.value.owner == owner && after.value.name == name && after.value.events == events
              && (before.Some? ==> after.value.id == before.value.id)
            else after == before
  {
    FoundIsNamed(s.saves, owner, name);
    if FindSave(s.saves, owner, name).Some? {
      FoundAfterOverwrite(s.saves, owner, name, events, who, other);
    } else {
      FoundAfterAdd(s.saves, SaveRow(s.counter + 1, owner, name, events), who, other);
    }
  }

  lemma {:induction false} FoundIsNamed(saves: seq<SaveRow>, owner: string, name: string)
    ensures var found := FindSave(saves, owner, name);
            found.Some? ==> found.value in saves && found.value.owner == owner && found.value.name == name
  {
    if saves != [] { FoundIsNamed(saves[1..], owner, name); }
  }

  /** Two sessions of one owner keep separate checkpoints exactly when their first eight characters differ. */
  lemma SlotsAreApartExactlyWhenPrefixesDiffer(s: State, owner: string, a: string, b: string, x: nat, y: nat)
    requires x != y
    ensures var both := Upserted(Upserted(s, owner, PeriodicSaveName(a), x), owner, PeriodicSaveName(b), y);
            var kept := FindSave(both.saves, owner, PeriodicSaveName(a));
            kept.Some? && (kept.value.events == x <==> Prefix(a) != Prefix(b))
  {
    var first := Upserted(s, owner, PeriodicSaveName(a), x);
    FoundAfterUpsert(s, owner, PeriodicSaveName(a), x, owner, PeriodicSaveName(a));
    FoundAfterUpsert(first, owner, PeriodicSaveName(b), y, owner, PeriodicSaveName(a));
    var n := |"Periodic Autosave \U{00B7} "|;
    assert PeriodicSaveName(a)[n..] == Prefix(a) && PeriodicSaveName(b)[n..] == Prefix(b);
  }
}
