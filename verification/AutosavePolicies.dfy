/** What the policy table holds during any run of the autosave machine (python/vtt_orchestrator/server.py): intervals in
    the range the request allows, and what each move does to policies and progress. */
module AutosavePolicies {
  import opened Text
  import opened Autosave

  ghost predicate InRange(interval: int) {
    1 <= interval <= 1440
  }

  /** The edit a move asks for and gets. */
  ghost predicate Granted(s: State, m: Move, edit: Edit) {
    m == Ask(edit.slot, true, edit.enabled, edit.interval) && edit.slot in s.standing && InRange(edit.interval)
  }

  /** A request is taken up if and only if its interval lies between a minute and a day, and it leaves an edit to be
      written if and only if its caller is staff and has standing. */
  lemma RequestIsTakenExactlyWhen(s: State, edit: Edit, staff: bool)
    ensures var m := Ask(edit.slot, staff, edit.enabled, edit.interval);
            && (Enabled(s, m) <==> InRange(edit.interval))
            && (Enabled(s, m) ==>
                  Next(s, m).edits == if Granted(s, m, edit) then s.edits + [edit] else s.edits)
  {
  }

  /** A slot's policy is written by an applied edit of it, as that edit says, and by the loop's disabling of it, with
      the interval listed; its progress by the recording of a save of it; and by nothing else. */
  lemma TablesChangeExactlyBy(s: State, m: Move, slot: Slot)
    requires Enabled(s, m)
    ensures var t := Next(s, m);
            var edited := m.Apply? && s.edits[m.i].slot == slot;
            var disabled := m == Disable && s.cycle.stage.item.slot == slot;
            var recorded := m == Record && s.cycle.stage.item.slot == slot;
            && (edited ==>
                  slot in t.policies && t.policies[slot] == Policy(s.edits[m.i].enabled, s.edits[m.i].interval))
            && (disabled ==> slot in t.policies && t.policies[slot] == Policy(false, s.cycle.stage.item.interval))
            && (!edited && !disabled ==>
                  (slot in t.policies <==> slot in s.policies) &&
                  (slot in s.policies ==> t.policies[slot] == s.policies[slot]))
            && (recorded ==>
                  slot in t.progress && t.progress[slot] == Progress(s.cycle.stage.events, s.cycle.now))
            && (!recorded ==>
                  (slot in t.progress <==> slot in s.progress) &&
                  (slot in s.progress ==> t.progress[slot] == s.progress[slot]))
  {
    hide FindSave, Overwrite, WithoutSave, ItemsFor;
  }

  // ---------------------------------------------------------------- intervals

  ghost predicate ItemsInRange(items: seq<Item>) {
    items == [] || (InRange(items[0].interval) && ItemsInRange(items[1..]))
  }

  ghost predicate AllInRange(s: State) {
    && (forall slot :: slot in s.policies ==> InRange(s.policies[slot].interval))
    && (forall i :: 0 <= i < |s.edits| ==> InRange(s.edits[i].interval))
    && (s.cycle.On? ==>
          && ItemsInRange(s.cycle.todo)
          && (!s.cycle.stage.Choosing? ==> InRange(s.cycle.stage.item.interval)))
  }

  lemma {:induction false} ListedInRange(s: State, order: seq<Slot>)
    requires (forall slot :: slot in order ==> slot in s.policies) && AllInRange(s)
    ensures ItemsInRange(ItemsFor(s, order))
  {
    if order != [] {
      assert forall slot :: slot in order[1..] ==> slot in order;
      ListedInRange(s, order[1..]);
    }
  }

  lemma MoveKeepsRange(s: State, m: Move)
    requires Enabled(s, m) && AllInRange(s)
    ensures AllInRange(Next(s, m))
  {
    hide FindSave, Overwrite, WithoutSave, ItemsFor;
    match m
    case Begin(_, order) => ListedInRange(s, order);
    case _ =>
  }

  /** Every interval a run stores is one a request may ask for. */
  lemma {:induction false} IntervalsStayInRange(moves: seq<Move>, k: nat)
    requires Legal(Initial, moves) && k <= |moves|
    ensures AllInRange(StateAt(moves, k))
  {
    hide Next, Enabled, AllInRange;
    if k == 0 {
      NothingOutOfRange(moves);
    } else {
      Onward(moves, k - 1);
      IntervalsStayInRange(moves, k - 1);
      MoveKeepsRange(StateAt(moves, k - 1), moves[k - 1]);
    }
  }

  lemma NothingOutOfRange(moves: seq<Move>)
    requires Legal(Initial, moves)
    ensures AllInRange(StateAt(moves, 0))
  {
    assert moves[..0] == [];
  }

  // ---------------------------------------------------------------- one cycle

  ghost predicate OfCycle(m: Move) {
    !(m.Roster? || m.Ask? || m.Apply? || m.ManualSave? || m.DeleteSave?)
  }

  /** Which steps a cycle may take: with no policy in hand it takes up the next one, passes over it if its check
      raises though it is due, or ends when none is left; with one in hand it makes that policy's next call, or the
      call raises. No cycle begins while another runs. */
  lemma CycleStepsExactly(s: State, m: Move)
    requires OfCycle(m)
    ensures s.cycle.Off? ==>
              (Enabled(s, m) <==>
                 && m.Begin? && Distinct(m.order)
                 && forall slot :: slot in m.order <==> slot in s.policies && s.policies[slot].enabled)
    ensures s.cycle.On? ==>
              (Enabled(s, m) <==>
                 match s.cycle.stage
                 case Choosing =>
                   if s.cycle.todo == [] then m == End
                   else
                     var item := s.cycle.todo[0];
                     m == Choose || (m == Unchecked && (item.lastSavedAt == None ||
                       item.lastSavedAt.value + (item.interval * 60) as real <= s.cycle.now))
                 case Disabling(_) => m == Disable || m == Fail
                 case Fetching(_) => m.Fetch? || m == Fail
                 case Saving(_, _) => m == Save || m == Fail
                 case Recording(_, _) => m == Record || m == Fail)
  {
  }

  /** How many policies the moves from the j-th to the k-th took up or passed over. */
  ghost function TakenUp(moves: seq<Move>, j: nat, k: nat): nat
    requires j <= k <= |moves|
    decreases k
  {
    if j == k then 0 else TakenUp(moves, j, k - 1) + if moves[k - 1] in {Choose, Unchecked} then 1 else 0
  }

  ghost predicate NoEnd(moves: seq<Move>, j: nat, k: nat) {
    forall i :: j <= i < k && i < |moves| ==> moves[i] != End
  }

  lemma StepOfCycle(s: State, m: Move, listed: seq<Item>, taken: nat)
    requires Enabled(s, m) && s.cycle.On? && taken <= |listed| && s.cycle.todo == listed[taken..] && m != End
    ensures Next(s, m).cycle.On?
    ensures var after := taken + if m in {Choose, Unchecked} then 1 else 0;
            after <= |listed| && Next(s, m).cycle.todo == listed[after..]
  {
    hide FindSave, Overwrite, WithoutSave;
    assert taken < |listed| ==> listed[taken..][1..] == listed[taken + 1..];
  }

  /** From its beginning to its end a cycle takes up the policies it listed one after the other, in their order, and
      it ends when it has been through all of them. */
  lemma {:induction false} CycleGoesThroughAll(moves: seq<Move>, j: nat, k: nat)
    requires Legal(Initial, moves) && j < k <= |moves| && moves[j].Begin? && NoEnd(moves, j, k)
    ensures Enabled(StateAt(moves, j), moves[j])
    ensures var (s, listed) := (StateAt(moves, k), ItemsFor(StateAt(moves, j), moves[j].order));
            && s.cycle.On? && TakenUp(moves, j + 1, k) <= |listed|
            && s.cycle.todo == listed[TakenUp(moves, j + 1, k)..]
            && (k < |moves| && moves[k] == End ==> TakenUp(moves, j + 1, k) == |listed|)
    decreases k
  {
    hide ItemsFor, Legal, NoEnd, StateAt, Next;
    Onward(moves, j);
    var listed := ItemsFor(StateAt(moves, j), moves[j].order);
    if k == j + 1 {
      BeginLists(StateAt(moves, j), moves[j].now, moves[j].order);
      assert listed[0..] == listed;
    } else {
      EndsNot(moves, j, k);
      CycleGoesThroughAll(moves, j, k - 1);
      Onward(moves, k - 1);
      StepOfCycle(StateAt(moves, k - 1), moves[k - 1], listed, TakenUp(moves, j + 1, k - 1));
    }
    if k < |moves| { Onward(moves, k); }
  }

  lemma BeginLists(s: State, now: real, order: seq<Slot>)
    requires Enabled(s, Begin(now, order))
    ensures Next(s, Begin(now, order)).cycle.On? && Next(s, Begin(now, order)).cycle.todo == ItemsFor(s, order)
  {
  }

  lemma EndsNot(moves: seq<Move>, j: nat, k: nat)
    requires j < k <= |moves| && NoEnd(moves, j, k)
    ensures NoEnd(moves, j, k - 1) && moves[k - 1] != End
  {
  }
}
