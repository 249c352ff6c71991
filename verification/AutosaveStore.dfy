/** What the save table holds during any run of the autosave machine (python/vtt_orchestrator/server.py): under each
    owner and name the last snapshot written there, until it is deleted. */
module AutosaveStore {
  import opened Text
  import opened Autosave

  /** The snapshot a move writes. */
  datatype Written = Nothing | Snapshot(owner: string, name: string, events: nat)

  ghost function WrittenBy(s: State, m: Move): Written
    requires Enabled(s, m)
  {
    match m
    case ManualSave(owner, name, events) => Snapshot(owner, name, events)
    case Save =>
      var slot := s.cycle.stage.item.slot;
      Snapshot(slot.owner, "Periodic Autosave \U{00B7} " +
               if |slot.session| <= 8 then slot.session else slot.session[..8],
               s.cycle.stage.events)
    case _ => Nothing
  }

  /** The move deletes this row. */
  ghost predicate Deletes(m: Move, row: SaveRow) {
    m == DeleteSave(row.owner, row.id)
  }

  lemma {:induction false} NoneWithout(saves: seq<SaveRow>, owner: string, id: nat, who: string, name: string)
    requires FindSave(saves, who, name).None?
    ensures FindSave(WithoutSave(saves, owner, id), who, name).None?
  {
    if saves != [] { NoneWithout(saves[1..], owner, id, who, name); }
  }

  lemma {:induction false} FoundWithout(saves: seq<SaveRow>, owner: string, id: nat, who: string, name: string)
    requires OneRowPerName(saves)
    ensures var (before, after) := (FindSave(saves, who, name), FindSave(WithoutSave(saves, owner, id), who, name));
            if before.Some? && before.value.owner == owner && before.value.id == id then after == None
            else after == before
  {
    if saves != [] {
      if saves[0].owner == who && saves[0].name == name {
        NoneWithout(saves[1..], owner, id, who, name);
      } else {
        FoundWithout(saves[1..], owner, id, who, name);
      }
    }
  }

  /** One move: what it writes is found there afterwards, what it deletes is not, and everything else is found as
      before. */
  lemma MoveStores(s: State, m: Move, owner: string, name: string)
    requires Enabled(s, m) && (m.DeleteSave? ==> OneRowPerName(s.saves))
    ensures var (before, after) := (FindSave(s.saves, owner, name), FindSave(Next(s, m).saves, owner, name));
            var w := WrittenBy(s, m);
            if w.Snapshot? && w.owner == owner && w.name == name then
              && after.Some? && after.value.events == w.events
              && (before.Some? ==> after.value.id == before.value.id)
            else if before.Some? && Deletes(m, before.value) then after == None
            else after == before
  {
    hide FindSave, Upserted, WithoutSave, ItemsFor;
    FoundIsNamed(s.saves, owner, name);
    match m
    case ManualSave(o, n, events) => FoundAfterUpsert(s, o, n, events, owner, name);
    case Save =>
      var slot := s.cycle.stage.item.slot;
      FoundAfterUpsert(s, slot.owner, PeriodicSaveName(slot.session), s.cycle.stage.events, owner, name);
    case DeleteSave(o, id) => FoundWithout(s.saves, o, id, owner, name);
    case _ =>
  }

  /** How many events the last snapshot written under a name holds, unless it has been deleted since. */
  ghost function LastWritten(moves: seq<Move>, k: nat, owner: string, name: string): Option<nat>
    requires Legal(Initial, moves) && k <= |moves|
    decreases k
  {
    if k == 0 then None
    else
      var s, m := StateAt(moves, k - 1), moves[k - 1];
      Onward(moves, k - 1);
      var w := WrittenBy(s, m);
      if w.Snapshot? && w.owner == owner && w.name == name then Some(w.events)
      else if FindSave(s.saves, owner, name).Some? && Deletes(m, FindSave(s.saves, owner, name).value) then None
      else LastWritten(moves, k - 1, owner, name)
  }

  /** At every point of every run, under each owner and name stands the last snapshot written there, and nothing if
      none was or it has been deleted. */
  lemma {:induction false} StoreShowsLastWritten(moves: seq<Move>, k: nat, owner: string, name: string)
    requires Legal(Initial, moves) && k <= |moves|
    ensures var found := FindSave(StateAt(moves, k).saves, owner, name);
            LastWritten(moves, k, owner, name) == if found.Some? then Some(found.value.events) else None
    decreases k
  {
    hide FindSave, Next, Enabled, WrittenBy, Inv;
    if k == 0 {
      NothingYet(moves, owner, name);
    } else {
      Onward(moves, k - 1);
      StoreShowsLastWritten(moves, k - 1, owner, name);
      RowsStayUnique(moves, k - 1);
      MoveStores(StateAt(moves, k - 1), moves[k - 1], owner, name);
    }
  }

  lemma NothingYet(moves: seq<Move>, owner: string, name: string)
    requires Legal(Initial, moves)
    ensures FindSave(StateAt(moves, 0).saves, owner, name).None?
  {
    assert moves[..0] == [];
  }

  lemma RowsStayUnique(moves: seq<Move>, k: nat)
    requires Legal(Initial, moves) && k <= |moves|
    ensures OneRowPerName(StateAt(moves, k).saves)
  {
    InvAt(moves, k);
  }

  /** Every save of the loop stores its snapshot under the policy's owner and the session's periodic name, and
      leaves every other row as it was. */
  lemma SavesStoreTheSnapshot(moves: seq<Move>, k: nat, owner: string, name: string)
    requires Legal(Initial, moves) && k < |moves| && moves[k] == Save
    ensures StateAt(moves, k).cycle.On? && StateAt(moves, k).cycle.stage.Saving?
    ensures var (item, events) := (StateAt(moves, k).cycle.stage.item, StateAt(moves, k).cycle.stage.events);
            var own := FindSave(StateAt(moves, k + 1).saves, item.slot.owner, PeriodicSaveName(item.slot.session));
            && own.Some? && own.value.events == events
            && (owner != item.slot.owner || name != PeriodicSaveName(item.slot.session) ==>
                  FindSave(StateAt(moves, k + 1).saves, owner, name) == FindSave(StateAt(moves, k).saves, owner, name))
  {
    Onward(moves, k);
    var s := StateAt(moves, k);
    var slot := s.cycle.stage.item.slot;
    MoveStores(s, Save, slot.owner, PeriodicSaveName(slot.session));
    MoveStores(s, Save, owner, name);
  }

  // ---------------------------------------------------------------- the ids of the rows

  ghost predicate NoId(saves: seq<SaveRow>, id: nat) {
    saves == [] || (saves[0].id != id && NoId(saves[1..], id))
  }

  /** Ids from 1 up to a bound, each once. */
  ghost predicate IdsWithin(saves: seq<SaveRow>, top: nat) {
    saves == [] || (1 <= saves[0].id <= top && NoId(saves[1..], saves[0].id) && IdsWithin(saves[1..], top))
  }

  lemma {:induction false} OverwriteKeepsIds(saves: seq<SaveRow>, owner: string, name: string, events: nat)
    ensures forall id :: NoId(Overwrite(saves, owner, name, events), id) <==> NoId(saves, id)
    ensures forall top :: IdsWithin(Overwrite(saves, owner, name, events), top) <==> IdsWithin(saves, top)
  {
    if saves != [] { OverwriteKeepsIds(saves[1..], owner, name, events); }
  }

  lemma {:induction false} IdsAfterAdd(saves: seq<SaveRow>, row: SaveRow, top: nat)
    requires IdsWithin(saves, top) && row.id == top + 1
    ensures IdsWithin(saves + [row], top + 1)
    ensures forall id :: NoId(saves + [row], id) <==> NoId(saves, id) && row.id != id
  {
    if saves == [] {
      assert saves + [row] == [row] && [row][1..] == [];
    } else {
      assert (saves + [row])[1..] == saves[1..] + [row];
      IdsAfterAdd(saves[1..], row, top);
    }
  }

  lemma {:induction false} IdsWithout(saves: seq<SaveRow>, owner: string, gone: nat, top: nat)
    requires IdsWithin(saves, top)
    ensures IdsWithin(WithoutSave(saves, owner, gone), top)
    ensures forall id :: NoId(saves, id) ==> NoId(WithoutSave(saves, owner, gone), id)
  {
    if saves != [] { IdsWithout(saves[1..], owner, gone, top); }
  }

  /** The move writes under a name that had no row. */
  ghost predicate Creates(s: State, m: Move)
    requires Enabled(s, m)
  {
    var w := WrittenBy(s, m);
    w.Snapshot? && FindSave(s.saves, w.owner, w.name).None?
  }

  ghost function Created(moves: seq<Move>, k: nat): nat
    requires Legal(Initial, moves) && k <= |moves|
    decreases k
  {
    if k == 0 then 0
    else
      Onward(moves, k - 1);
      Created(moves, k - 1) + if Creates(StateAt(moves, k - 1), moves[k - 1]) then 1 else 0
  }

  lemma UpsertCounts(s: State, owner: string, name: string, events: nat)
    requires IdsWithin(s.saves, s.counter)
    ensures var (t, added) := (Upserted(s, owner, name, events), FindSave(s.saves, owner, name).None?);
            && IdsWithin(t.saves, t.counter) && t.counter == s.counter + (if added then 1 else 0)
            && (added ==> t.saves != [] && t.saves[|t.saves| - 1].id == t.counter && t.saves[..|s.saves|] == s.saves)
  {
    OverwriteKeepsIds(s.saves, owner, name, events);
    IdsAfterAdd(s.saves, SaveRow(s.counter + 1, owner, name, events), s.counter);
  }

  lemma MoveCounts(s: State, m: Move)
    requires Enabled(s, m) && IdsWithin(s.saves, s.counter)
    ensures var t := Next(s, m);
            && IdsWithin(t.saves, t.counter) && t.counter == s.counter + (if Creates(s, m) then 1 else 0)
            && (Creates(s, m) ==>
                  t.saves != [] && t.saves[|t.saves| - 1].id == t.counter && t.saves[..|s.saves|] == s.saves)
  {
    hide FindSave, ItemsFor, Upserted, IdsWithin;
    match m
    case ManualSave(owner, name, events) => UpsertCounts(s, owner, name, events);
    case Save =>
      var slot := s.cycle.stage.item.slot;
      UpsertCounts(s, slot.owner, PeriodicSaveName(slot.session), s.cycle.stage.events);
    case DeleteSave(o, id) => IdsWithout(s.saves, o, id, s.counter);
    case _ =>
  }

  /** The counter is the number of rows created, the rows that stand have ids of their own up to it, and a new row
      gets it. */
  lemma {:induction false} IdsCountUp(moves: seq<Move>, k: nat)
    requires Legal(Initial, moves) && k <= |moves|
    ensures StateAt(moves, k).counter == Created(moves, k)
    ensures IdsWithin(StateAt(moves, k).saves, Created(moves, k))
    ensures k > 0 && Created(moves, k) > Created(moves, k - 1) ==>
              var saves := StateAt(moves, k).saves;
              saves != [] && saves[|saves| - 1].id == Created(moves, k)
    decreases k
  {
    hide Next, Enabled, Creates, IdsWithin;
    if k == 0 {
      NoIdsYet(moves);
    } else {
      Onward(moves, k - 1);
      IdsCountUp(moves, k - 1);
      MoveCounts(StateAt(moves, k - 1), moves[k - 1]);
    }
  }

  lemma NoIdsYet(moves: seq<Move>)
    requires Legal(Initial, moves)
    ensures StateAt(moves, 0).counter == 0 && IdsWithin(StateAt(moves, 0).saves, 0)
  {
    assert moves[..0] == [];
  }

  lemma {:induction false} CreatedGrows(moves: seq<Move>, j: nat, k: nat)
    requires Legal(Initial, moves) && j <= k <= |moves|
    ensures Created(moves, j) <= Created(moves, k)
    decreases k
  {
    if j < k { CreatedGrows(moves, j, k - 1); }
  }

  lemma {:induction false} IdsAreWithin(saves: seq<SaveRow>, top: nat)
    requires IdsWithin(saves, top)
    ensures forall i :: 0 <= i < |saves| ==> saves[i].id <= top
    ensures forall i, j :: 0 <= i < j < |saves| ==> saves[i].id != saves[j].id
  {
    if saves != [] {
      IdsAreWithin(saves[1..], top);
      NoIdBehind(saves[1..], saves[0].id);
      assert forall i :: 1 <= i < |saves| ==> saves[i] == saves[1..][i - 1];
    }
  }

  lemma {:induction false} NoIdBehind(saves: seq<SaveRow>, id: nat)
    requires NoId(saves, id)
    ensures forall i :: 0 <= i < |saves| ==> saves[i].id != id
  {
    if saves != [] {
      NoIdBehind(saves[1..], id);
      assert forall i :: 1 <= i < |saves| ==> saves[i] == saves[1..][i - 1];
    }
  }

  /** In every run the rows that stand have ids of their own, and a row that is created gets an id above every id of
      any row that ever stood, deleted since or not. */
  lemma SaveIdsNeverRepeat(moves: seq<Move>, j: nat, k: nat)
    requires Legal(Initial, moves) && j <= k < |moves|
    ensures var saves := StateAt(moves, k).saves;
            forall a, b :: 0 <= a < b < |saves| ==> saves[a].id != saves[b].id
    ensures Enabled(StateAt(moves, k), moves[k])
    ensures Creates(StateAt(moves, k), moves[k]) ==>
              var (earlier, saves) := (StateAt(moves, j).saves, StateAt(moves, k + 1).saves);
              && saves != [] && WrittenBy(StateAt(moves, k), moves[k]).Snapshot?
              && forall i :: 0 <= i < |earlier| ==> earlier[i].id < saves[|saves| - 1].id
  {
    hide StateAt, IdsWithin, WrittenBy, Creates;
    Onward(moves, k);
    IdsCountUp(moves, j);
    IdsCountUp(moves, k);
    IdsCountUp(moves, k + 1);
    CreatedGrows(moves, j, k);
    IdsAreWithin(StateAt(moves, j).saves, Created(moves, j));
    IdsAreWithin(StateAt(moves, k).saves, Created(moves, k));
    OneMoreCreated(moves, k);
  }

  lemma OneMoreCreated(moves: seq<Move>, k: nat)
    requires Legal(Initial, moves) && k < |moves|
    ensures Enabled(StateAt(moves, k), moves[k])
    ensures Creates(StateAt(moves, k), moves[k]) ==>
              Created(moves, k + 1) == Created(moves, k) + 1 && WrittenBy(StateAt(moves, k), moves[k]).Snapshot?
  {
    Onward(moves, k);
  }
}
