/** The order of a roll's lists (client/src/api/dice_notation.ts): when `rolls` and `dropped` are in draw
    order, as their comments say, and when explosions are drawn after all dice, as another comment says. */
module DiceDrawOrder {
  import opened Text
  import opened DiceGrammar
  import opened KeepSelection
  import opened DiceRolls
  import opened DiceLimits

  // ---------------------------------------------------------------- the two orders

  ghost function Pool(o: Oracle, at: nat, count: nat, sides: nat, mods: Mods): seq<RolledDie> {
    RollDice(DieAt(o, sides, mods), at, count)
  }

  /** What a pool adds to `rolls`: the dice that stand, then all bonus values. */
  ghost function RollsOf(dice: seq<RolledDie>, from: nat, kept: set<nat>): seq<int> {
    ValuesWhere(dice, from, kept, true) + BonusValues(dice)
  }

  /** The same values as they were drawn: each die's own bonus values right behind it. */
  ghost function RollsDrawn(dice: seq<RolledDie>, from: nat, kept: set<nat>): seq<int> {
    if dice == [] then []
    else if from in kept
    then [dice[0].value as int] + (AsInts(dice[0].explodedTo) + RollsDrawn(dice[1..], from + 1, kept))
    else AsInts(dice[0].explodedTo) + RollsDrawn(dice[1..], from + 1, kept)
  }

  /** What a pool adds to `dropped`: the rerolled values, then the dice not kept. */
  ghost function DroppedOf(dice: seq<RolledDie>, from: nat, kept: set<nat>): seq<int> {
    RerolledValues(dice) + ValuesWhere(dice, from, kept, false)
  }

  /** The same values as they were drawn. */
  ghost function DroppedDrawn(dice: seq<RolledDie>, from: nat, kept: set<nat>): seq<int> {
    if dice == [] then []
    else if from in kept then RerolledFrom(dice[0]) + DroppedDrawn(dice[1..], from + 1, kept)
    else RerolledFrom(dice[0]) + ([dice[0].value as int] + DroppedDrawn(dice[1..], from + 1, kept))
  }

  // ---------------------------------------------------------------- dice of a pool

  predicate Fires(mods: Mods, value: nat) {
    mods.reroll.Some? && Rerolls(mods.reroll.value, value)
  }

  lemma FirstDieOf(o: Oracle, at: nat, count: nat, sides: nat, mods: Mods)
    requires count >= 1
    ensures var die := RollDie(o, at, sides, mods);
            Pool(o, at, count, sides, mods) == [die] + Pool(o, at + DieDraws(die), count - 1, sides, mods)
  {
  }

  lemma PoolOfOne(o: Oracle, at: nat, sides: nat, mods: Mods)
    ensures Pool(o, at, 1, sides, mods) == [RollDie(o, at, sides, mods)]
    ensures Draws(Pool(o, at, 1, sides, mods)) == DieDraws(RollDie(o, at, sides, mods))
  {
    FirstDieOf(o, at, 1, sides, mods);
    var die := RollDie(o, at, sides, mods);
    assert Pool(o, at, 1, sides, mods) == [die] && [die][1..] == [];
  }

  /** Values lie on the die, only the highest face has a bonus, and what was rerolled could be. */
  lemma {:induction false} PoolFacts(o: Oracle, at: nat, count: nat, sides: nat, mods: Mods)
    requires OnDie(o) && sides >= 1
    ensures forall i :: 0 <= i < count ==>
              var die := Pool(o, at, count, sides, mods)[i];
              && 1 <= die.value <= sides
              && (die.explodedTo != [] ==> die.value == sides && mods.explode)
              && (die.rerolledFrom.Some? ==>
                    1 <= die.rerolledFrom.value <= sides && Fires(mods, die.rerolledFrom.value))
    decreases count
  {
    if count > 0 {
      FirstDieOf(o, at, count, sides, mods);
      var die := RollDie(o, at, sides, mods);
      assert 1 <= o(at, sides) <= sides && 1 <= o(at + 1, sides) <= sides;
      PoolFacts(o, at + DieDraws(die), count - 1, sides, mods);
    }
  }

  /** While a source shows one face only, every die stands at it, rerolled once if that face is. */
  lemma {:induction false} ConstantDice(o: Oracle, at: nat, count: nat, sides: nat, mods: Mods, face: nat)
    requires forall n: nat :: n >= at ==> o(n, sides) == face
    ensures forall i :: 0 <= i < count ==>
              var die := Pool(o, at, count, sides, mods)[i];
              die.value == face && die.rerolledFrom == (if Fires(mods, face) then Some(face) else None)
    decreases count
  {
    if count > 0 {
      FirstDieOf(o, at, count, sides, mods);
      ConstantDice(o, at + DieDraws(RollDie(o, at, sides, mods)), count - 1, sides, mods, face);
    }
  }

  lemma PartSize(a: set<nat>, b: set<nat>)
    requires a <= b
    ensures |a| <= |b|
  {
    assert a + (b - a) == b;
  }

  /** The evaluator appends exactly these lists, and the pool's draws, to what it has. */
  lemma TermAppends(term: Term, o: Oracle, t: Tally)
    requires term.Dice? && EvalTerm(term, o, t).Done?
    ensures var after, dice := EvalTerm(term, o, t).tally, Pool(o, |t.log|, term.count, term.sides, term.mods);
            && KeepFits(term.mods, term.count)
            && after.rolls == t.rolls + RollsOf(dice, 0, KeptOf(dice, term.mods.keep))
            && after.dropped == t.dropped + DroppedOf(dice, 0, KeptOf(dice, term.mods.keep))
            && after.log == t.log + PoolValues(dice)
  {
    var dice := Pool(o, |t.log|, term.count, term.sides, term.mods);
    forall k: nat ensures DrawsItsValues(o, term.sides, k, DieAt(o, term.sides, term.mods)(k)) {
      DieDrawsItsValues(o, k, term.sides, term.mods);
    }
    PoolDraws(o, term.sides, DieAt(o, term.sides, term.mods), |t.log|, term.count);
    var rerolled, out := RerolledValues(dice), ValuesWhere(dice, 0, KeptOf(dice, term.mods.keep), false);
    assert (t.dropped + rerolled) + out == t.dropped + (rerolled + out);
  }

  // ---------------------------------------------------------------- rolls

  /** No die behind one with a bonus stands. */
  ghost predicate BonusLast(dice: seq<RolledDie>, from: nat, kept: set<nat>) {
    dice == [] || ((dice[0].explodedTo == [] || ValuesWhere(dice[1..], from + 1, kept, true) == []) &&
                   BonusLast(dice[1..], from + 1, kept))
  }

  lemma Regroup(v: seq<int>, standing: seq<int>, own: seq<int>, bonus: seq<int>)
    requires own == [] || standing == []
    ensures (v + standing) + (own + bonus) == v + (own + (standing + bonus))
  {
    if own == [] {
      assert own + bonus == bonus && own + (standing + bonus) == standing + bonus;
    } else {
      assert v + standing == v && standing + bonus == bonus;
    }
  }

  lemma {:induction false} BonusLastIsInOrder(dice: seq<RolledDie>, from: nat, kept: set<nat>)
    requires BonusLast(dice, from, kept)
    ensures RollsOf(dice, from, kept) == RollsDrawn(dice, from, kept)
  {
    if dice != [] {
      var standing := ValuesWhere(dice[1..], from + 1, kept, true);
      BonusLastIsInOrder(dice[1..], from + 1, kept);
      Regroup(if from in kept then [dice[0].value as int] else [], standing, AsInts(dice[0].explodedTo),
              BonusValues(dice[1..]));
    }
  }

  lemma {:induction false} NoneStands(dice: seq<RolledDie>, from: nat, kept: set<nat>)
    requires forall k: nat :: from <= k < from + |dice| ==> k !in kept
    ensures ValuesWhere(dice, from, kept, true) == []
  {
    if dice != [] { NoneStands(dice[1..], from + 1, kept); }
  }

  lemma {:induction false} BonusLastFrom(dice: seq<RolledDie>, from: nat, kept: set<nat>)
    requires forall i, k: nat :: 0 <= i < |dice| && from + i < k < from + |dice| && k in kept ==>
             dice[i].explodedTo == []
    ensures BonusLast(dice, from, kept)
  {
    if dice != [] {
      forall i, k: nat | 0 <= i < |dice[1..]| && from + 1 + i < k < from + |dice| && k in kept
        ensures dice[1..][i].explodedTo == []
      {
        assert dice[1..][i] == dice[i + 1];
      }
      BonusLastFrom(dice[1..], from + 1, kept);
      if dice[0].explodedTo != [] { NoneStands(dice[1..], from + 1, kept); }
    }
  }

  /** With kh1 the kept die is the first of the highest, so none before it has a bonus. */
  lemma OnlyBestIsKept(dice: seq<RolledDie>, kept: set<nat>, sides: nat, i: nat, j: nat)
    requires i < j < |dice| && |kept| == 1 && j in kept && Leads(Values(dice), true, kept)
    requires dice[i].explodedTo != [] ==> dice[i].value == sides
    requires dice[j].value <= sides
    ensures dice[i].explodedTo == []
  {
    if i in kept {
      assert {i, j} <= kept;
      PartSize({i, j}, kept);
    }
    assert Before(Values(dice), true, j, i);
  }

  ghost predicate RollsInOrder(o: Oracle, at: nat, count: nat, sides: nat, mods: Mods)
    requires KeepFits(mods, count)
  {
    var dice := Pool(o, at, count, sides, mods);
    RollsOf(dice, 0, KeptOf(dice, mods.keep)) == RollsDrawn(dice, 0, KeptOf(dice, mods.keep))
  }

  lemma RollsAreInOrder(o: Oracle, at: nat, count: nat, sides: nat, mods: Mods)
    requires OnDie(o) && sides >= 2 && KeepFits(mods, count)
    requires !mods.explode || count == 1 || mods.keep == Some(Keep(true, 1))
    ensures RollsInOrder(o, at, count, sides, mods)
  {
    var dice := Pool(o, at, count, sides, mods);
    var kept := KeptOf(dice, mods.keep);
    PoolFacts(o, at, count, sides, mods);
    forall i, k: nat | 0 <= i < |dice| && i < k < |dice| && k in kept ensures dice[i].explodedTo == [] {
      if mods.explode {
        KeptLeads(Values(dice), true, 1);
        OnlyBestIsKept(dice, kept, sides, i, k);
      }
    }
    BonusLastFrom(dice, 0, kept);
    BonusLastIsInOrder(dice, 0, kept);
  }

  /** The first die explodes once and then stops; every other die stands at 1. */
  ghost function OneExplosion(high: nat): Oracle {
    (n: nat, sides: nat) => if n < high then sides else 1
  }

  lemma ExplodesOnce(count: nat, sides: nat, mods: Mods)
    requires count >= 1 && sides >= 2 && mods.explode && ThresholdFits(mods, sides)
    ensures var dice := Pool(OneExplosion(if Fires(mods, sides) then 3 else 2), 0, count, sides, mods);
            && dice[0].value == sides && dice[0].explodedTo == [sides, 1]
            && forall i :: 1 <= i < count ==> dice[i].value == 1
  {
    var high := if Fires(mods, sides) then 3 else 2;
    var o := OneExplosion(high);
    var next := high - 1;
    assert Explosions(o, next + 1, sides, sides, 9) == [1] + Explosions(o, next + 2, sides, 1, 8);
    assert Explosions(o, next, sides, sides, 10) == [sides] + Explosions(o, next + 1, sides, sides, 9);
    var die := RollDie(o, 0, sides, mods);
    assert die.explodedTo == [sides, 1];
    FirstDieOf(o, 0, count, sides, mods);
    ConstantDice(o, DieDraws(die), count - 1, sides, mods, 1);
  }

  lemma {:induction false} FirstStandingIsOne(dice: seq<RolledDie>, from: nat, kept: set<nat>)
    requires forall i :: 0 <= i < |dice| ==> dice[i].value == 1
    ensures ValuesWhere(dice, from, kept, true) != [] ==> ValuesWhere(dice, from, kept, true)[0] == 1
  {
    if dice != [] && from !in kept { FirstStandingIsOne(dice[1..], from + 1, kept); }
  }

  /** Some die besides the first stands, unless the one kept is the highest. */
  lemma AnotherStands(dice: seq<RolledDie>, keep: Option<Keep>, sides: nat)
    requires |dice| >= 2 && (keep.Some? ==> 1 <= keep.value.n <= |dice|) && keep != Some(Keep(true, 1))
    requires dice[0].value == sides && sides >= 2 && dice[1].value == 1
    ensures ValuesWhere(dice[1..], 1, KeptOf(dice, keep), true) != []
  {
    var kept := KeptOf(dice, keep);
    var i: nat;
    if keep.None? {
      i := 1;
    } else {
      KeptLeads(Values(dice), keep.value.highest, keep.value.n);
      if 1 in kept {
        i := 1;
      } else {
        assert 0 in kept ==> keep.value.highest by {
          if 0 in kept { assert Before(Values(dice), keep.value.highest, 0, 1); }
        }
        if kept <= {0} { PartSize(kept, {0}); }
        i :| i in kept && i != 0;
      }
    }
    SomeDieStands(dice[1..], 1, kept, i - 1);
  }

  lemma RollsGetOutOfOrder(count: nat, sides: nat, mods: Mods)
    requires count >= 2 && sides >= 2 && mods.explode && KeepFits(mods, count) && ThresholdFits(mods, sides)
    requires mods.keep != Some(Keep(true, 1))
    ensures !RollsInOrder(OneExplosion(if Fires(mods, sides) then 3 else 2), 0, count, sides, mods)
  {
    var dice := Pool(OneExplosion(if Fires(mods, sides) then 3 else 2), 0, count, sides, mods);
    var kept := KeptOf(dice, mods.keep);
    ExplodesOnce(count, sides, mods);
    AnotherStands(dice, mods.keep, sides);
    FirstStandingIsOne(dice[1..], 1, kept);
    assert AsInts([sides, 1]) == [sides as int] + AsInts([sides, 1][1..]);
    var standing := ValuesWhere(dice[1..], 1, kept, true);
    if 0 in kept {
      assert RollsDrawn(dice, 0, kept)[1] == sides as int;
      assert ValuesWhere(dice, 0, kept, true) == [sides as int] + standing;
      assert RollsOf(dice, 0, kept)[1] == standing[0];
    } else {
      assert RollsDrawn(dice, 0, kept)[0] == sides as int;
      assert RollsOf(dice, 0, kept)[0] == standing[0];
    }
  }

  /** A pool's rolls are in draw order whatever its dice show if and only if it does not explode, is a single
      die, or keeps the one highest. */
  lemma RollsAreInDrawOrderExactlyWhen(count: nat, sides: nat, mods: Mods)
    requires count >= 1 && sides >= 2 && KeepFits(mods, count) && ThresholdFits(mods, sides)
    ensures (forall o, at :: OnDie(o) ==> RollsInOrder(o, at, count, sides, mods)) <==>
            !mods.explode || count == 1 || mods.keep == Some(Keep(true, 1))
  {
    if !mods.explode || count == 1 || mods.keep == Some(Keep(true, 1)) {
      forall o, at | OnDie(o) ensures RollsInOrder(o, at, count, sides, mods) {
        RollsAreInOrder(o, at, count, sides, mods);
      }
    } else {
      RollsGetOutOfOrder(count, sides, mods);
      assert OnDie(OneExplosion(if Fires(mods, sides) then 3 else 2));
    }
  }

  ghost function SixOneTwo(): Oracle {
    (n: nat, sides: nat) => if n == 0 then 6 else if n == 1 then 1 else 2
  }

  const Six := RolledDie(6, true, None, [1])
  const Two := RolledDie(2, true, None, [])

  lemma SixAndTwo()
    ensures Pool(SixOneTwo(), 0, 2, 6, Mods(None, None, true)) == [Six, Two]
  {
    var o, mods := SixOneTwo(), Mods(None, None, true);
    assert Explosions(o, 1, 6, 6, 10) == [1] + Explosions(o, 2, 6, 1, 9);
    assert Explosions(o, 2, 6, 1, 9) == [];
    assert RollDie(o, 0, 6, mods) == Six && RollDie(o, 2, 6, mods) == Two && DieDraws(Six) == 2;
    FirstDieOf(o, 0, 2, 6, mods);
    PoolOfOne(o, 2, 6, mods);
  }

  lemma SixAndTwoRecorded()
    ensures Draws([Six, Two]) == 3 && KeptOf([Six, Two], None) == {0, 1}
    ensures ValuesWhere([Six, Two], 0, {0, 1}, true) == [6, 2] && BonusValues([Six, Two]) == [1]
  {
    assert [Six, Two][1..] == [Two] && [Two][1..] == [];
    assert FirstIndices(2) == {0, 1};
    assert ValuesWhere([Two], 1, {0, 1}, true) == [2];
    assert AsInts([1]) == [1] && BonusValues([Two]) == [];
    assert Draws([Two]) == 1;
  }

  /** "2d6!" drawing 6, 1 and 2: the explosion of the first die stands behind the second die. */
  lemma TwoSixesExample()
    ensures var after := EvalTerm(Dice(Plus, 2, 6, Mods(None, None, true)), SixOneTwo(), Start);
            after.Done? && after.tally.log == [6, 1, 2] && after.tally.rolls == [6, 2, 1]
  {
    SixAndTwo();
    SixAndTwoRecorded();
    assert Answers(SixOneTwo(), 0, 3, 6) == [6, 1, 2];
  }

  // ---------------------------------------------------------------- dropped

  ghost predicate AllEqual(values: seq<int>, v: int) {
    forall i :: 0 <= i < |values| ==> values[i] == v
  }

  /** Whatever is rerolled behind a dropped die shows that die's value. */
  ghost predicate DropsLast(dice: seq<RolledDie>, from: nat, kept: set<nat>) {
    dice == [] ||
    ((from in kept || AllEqual(RerolledValues(dice[1..]), dice[0].value as int)) &&
     DropsLast(dice[1..], from + 1, kept))
  }

  lemma {:induction false} PassesEqual(v: int, values: seq<int>)
    requires AllEqual(values, v)
    ensures [v] + values == values + [v]
  {
    if values != [] {
      assert AllEqual(values[1..], v);
      PassesEqual(v, values[1..]);
      assert values == [v] + values[1..];
      assert [v] + values == [v] + ([v] + values[1..]) && values + [v] == [v] + (values[1..] + [v]);
    }
  }

  lemma Swap(a: seq<int>, v: int, b: seq<int>, c: seq<int>)
    requires [v] + b == b + [v]
    ensures (a + b) + ([v] + c) == a + ([v] + (b + c))
  {
    assert (a + b) + ([v] + c) == a + ((b + [v]) + c);
    assert a + ([v] + (b + c)) == a + (([v] + b) + c);
  }

  lemma {:induction false} DropsLastIsInOrder(dice: seq<RolledDie>, from: nat, kept: set<nat>)
    requires DropsLast(dice, from, kept)
    ensures DroppedOf(dice, from, kept) == DroppedDrawn(dice, from, kept)
  {
    if dice != [] {
      DropsLastIsInOrder(dice[1..], from + 1, kept);
      if from !in kept {
        PassesEqual(dice[0].value as int, RerolledValues(dice[1..]));
        Swap(RerolledFrom(dice[0]), dice[0].value as int, RerolledValues(dice[1..]),
             ValuesWhere(dice[1..], from + 1, kept, false));
      }
    }
  }

  lemma {:induction false} RerolledAre(dice: seq<RolledDie>, v: int)
    requires forall i :: 0 <= i < |dice| && dice[i].rerolledFrom.Some? ==> dice[i].rerolledFrom.value as int == v
    ensures AllEqual(RerolledValues(dice), v)
  {
    if dice != [] {
      forall i | 0 <= i < |dice[1..]| && dice[1..][i].rerolledFrom.Some?
        ensures dice[1..][i].rerolledFrom.value as int == v
      {
        assert dice[1..][i] == dice[i + 1];
      }
      RerolledAre(dice[1..], v);
    }
  }

  lemma {:induction false} DropsLastFrom(dice: seq<RolledDie>, from: nat, kept: set<nat>)
    requires forall i, j :: 0 <= i < j < |dice| && from + i !in kept && dice[j].rerolledFrom.Some? ==>
             dice[j].rerolledFrom.value == dice[i].value
    ensures DropsLast(dice, from, kept)
  {
    if dice != [] {
      assert from + 0 == from;
      forall j | 0 <= j < |dice[1..]| && from !in kept && dice[1..][j].rerolledFrom.Some?
        ensures dice[1..][j].rerolledFrom.value as int == dice[0].value as int
      {
        assert dice[1..][j] == dice[j + 1];
      }
      if from !in kept { RerolledAre(dice[1..], dice[0].value as int); }
      forall i, j | 0 <= i < j < |dice[1..]| && from + 1 + i !in kept && dice[1..][j].rerolledFrom.Some?
        ensures dice[1..][j].rerolledFrom.value == dice[1..][i].value
      {
        assert dice[1..][j] == dice[j + 1] && dice[1..][i] == dice[i + 1] && from + (i + 1) !in kept;
      }
      DropsLastFrom(dice[1..], from + 1, kept);
    }
  }

  /** When two-sided dice drop just one, and the face that is rerolled is the one that is not kept, no order
      can show: what is rerolled and what is dropped before it look alike. */
  predicate OrderCannotShow(count: nat, sides: nat, mods: Mods) {
    && mods.keep.Some? && mods.reroll.Some?
    && sides == 2 && mods.keep.value.n + 1 == count && mods.keep.value.highest == mods.reroll.value.comparator.Below?
  }

  ghost predicate DroppedInOrder(o: Oracle, at: nat, count: nat, sides: nat, mods: Mods)
    requires KeepFits(mods, count)
  {
    var dice := Pool(o, at, count, sides, mods);
    DroppedOf(dice, 0, KeptOf(dice, mods.keep)) == DroppedDrawn(dice, 0, KeptOf(dice, mods.keep))
  }

  lemma AllAreKept(dice: seq<RolledDie>, keep: Option<Keep>, i: nat)
    requires i < |dice| && (keep.Some? ==> keep.value.n == |dice|)
    ensures i in KeptOf(dice, keep)
  {
    if keep.Some? {
      KeptLeads(Values(dice), keep.value.highest, |dice|);
      var all := FirstIndices(|dice|);
      IndicesNumber(|dice|);
      SubsetSize(KeptOf(dice, keep), all);
    }
  }

  lemma {:induction false} IndicesNumber(n: nat)
    ensures |FirstIndices(n)| == n
  {
    if n > 0 { IndicesNumber(n - 1); }
  }

  lemma OneIsMissing(kept: set<nat>, count: nat, i: nat, j: nat)
    requires |kept| + 1 == count && i < count && j < count && i != j && i !in kept
    requires forall k :: k in kept ==> k < count
    ensures j in kept
  {
    if j !in kept {
      IndicesNumber(count);
      PartSize(kept + {i, j}, FirstIndices(count));
    }
  }

  /** The one die not kept of a pool comes behind all others. */
  lemma OneDrop(dice: seq<RolledDie>, keep: Keep, i: nat, j: nat)
    requires keep.n + 1 == |dice| && i < |dice| && j < |dice| && i != j && i !in KeptOf(dice, Some(keep))
    ensures Before(Values(dice), keep.highest, j, i)
  {
    var kept := KeptOf(dice, Some(keep));
    KeptLeads(Values(dice), keep.highest, keep.n);
    OneIsMissing(kept, |dice|, i, j);
  }

  lemma DroppedIsInOrder(o: Oracle, at: nat, count: nat, sides: nat, mods: Mods)
    requires OnDie(o) && sides >= 2 && KeepFits(mods, count) && ThresholdFits(mods, sides)
    requires !CanReroll(mods, sides) || mods.keep.None? || mods.keep.value.n == count ||
             OrderCannotShow(count, sides, mods)
    ensures DroppedInOrder(o, at, count, sides, mods)
  {
    var dice := Pool(o, at, count, sides, mods);
    var kept := KeptOf(dice, mods.keep);
    PoolFacts(o, at, count, sides, mods);
    forall i, j | 0 <= i < j < |dice| && 0 + i !in kept && dice[j].rerolledFrom.Some?
      ensures dice[j].rerolledFrom.value == dice[i].value
    {
      if mods.keep.None? || mods.keep.value.n == count {
        AllAreKept(dice, mods.keep, i);
      } else {
        OneDrop(dice, mods.keep.value, i, j);
      }
    }
    DropsLastFrom(dice, 0, kept);
    DropsLastIsInOrder(dice, 0, kept);
  }

  // ---------------------------------------------------------------- sources that show the difference

  /** A dropped first die and another face rerolled right behind it. */
  lemma DropThenReroll(dice: seq<RolledDie>, kept: set<nat>)
    requires |dice| >= 2 && 0 !in kept && dice[1].rerolledFrom.Some? && dice[1].rerolledFrom.value != dice[0].value
    ensures DroppedOf(dice, 0, kept) != DroppedDrawn(dice, 0, kept)
  {
    var head := RerolledFrom(dice[0]);
    var rest := RerolledValues(dice[1..]);
    assert rest[0] == dice[1].rerolledFrom.value as int;
    assert DroppedOf(dice, 0, kept)[|head|] == rest[0];
    assert DroppedDrawn(dice, 0, kept)[|head|] == dice[0].value as int;
  }

  lemma {:induction false} FirstReroll(dice: seq<RolledDie>, j: nat)
    requires j < |dice| && dice[j].rerolledFrom.Some? && forall i :: 0 <= i < j ==> dice[i].rerolledFrom.None?
    ensures RerolledValues(dice) != [] && RerolledValues(dice)[0] == dice[j].rerolledFrom.value as int
    decreases j
  {
    if j > 0 {
      assert dice[0].rerolledFrom.None?;
      FirstReroll(dice[1..], j - 1);
    }
  }

  lemma KeptFirst(dice: seq<RolledDie>, from: nat, kept: set<nat>)
    requires dice != [] && from in kept && dice[0].rerolledFrom.None?
    ensures DroppedOf(dice, from, kept) == DroppedOf(dice[1..], from + 1, kept)
    ensures DroppedDrawn(dice, from, kept) == DroppedDrawn(dice[1..], from + 1, kept)
  {
  }

  /** Dice of one face, one of them dropped, and another face rerolled behind them. */
  lemma {:induction false} DropsThenReroll(dice: seq<RolledDie>, from: nat, kept: set<nat>, face: nat, i: nat, j: nat)
    requires i < j < |dice| && from + i !in kept && dice[j].rerolledFrom.Some? && dice[j].rerolledFrom.value != face
    requires forall k :: 0 <= k < j ==> dice[k].rerolledFrom.None? && dice[k].value == face
    ensures DroppedOf(dice, from, kept) != DroppedDrawn(dice, from, kept)
    decreases i
  {
    FirstReroll(dice, j);
    assert dice[0].rerolledFrom.None? && dice[0].value == face;
    if from !in kept {
      assert DroppedDrawn(dice, from, kept)[0] == face as int;
      assert DroppedOf(dice, from, kept)[0] == dice[j].rerolledFrom.value as int;
    } else {
      assert i != 0 by { assert from + 0 == from; }
      forall k | 0 <= k < j - 1 ensures dice[1..][k].rerolledFrom.None? && dice[1..][k].value == face {
        assert dice[1..][k] == dice[k + 1];
      }
      DropsThenReroll(dice[1..], from + 1, kept, face, i - 1, j - 1);
      KeptFirst(dice, from, kept);
    }
  }

  /** A die that comes behind all others is dropped. */
  lemma WorstIsDropped(dice: seq<RolledDie>, keep: Keep)
    requires 1 <= keep.n < |dice|
    requires forall i :: 1 <= i < |dice| ==>
             if keep.highest then dice[0].value < dice[i].value else dice[i].value < dice[0].value
    ensures 0 !in KeptOf(dice, Some(keep))
  {
    var kept := KeptOf(dice, Some(keep));
    KeptLeads(Values(dice), keep.highest, keep.n);
    if 0 in kept {
      var i := NotAllInside(|dice|, kept);
      assert false;
    }
  }

  /** The source that shows the best face for the keep, but for one draw. */
  ghost function Odd(at: nat, highest: bool): Oracle {
    (n: nat, sides: nat) => if (n == at) == highest then 1 else sides
  }

  /** The face that is rerolled is the one that is kept: the first die is the one that is not. */
  lemma BestIsRerolled(count: nat, sides: nat, mods: Mods)
    requires count >= 2 && sides >= 2 && KeepFits(mods, count) && ThresholdFits(mods, sides) && CanReroll(mods, sides)
    requires mods.keep.Some? && mods.keep.value.n < count &&
             mods.keep.value.highest != mods.reroll.value.comparator.Below?
    ensures !DroppedInOrder(Odd(0, mods.keep.value.highest), 0, count, sides, mods)
  {
    var o := Odd(0, mods.keep.value.highest);
    var dice := Pool(o, 0, count, sides, mods);
    var die := RollDie(o, 0, sides, mods);
    var best := if mods.keep.value.highest then sides else 1;
    FirstDieOf(o, 0, count, sides, mods);
    ConstantDice(o, DieDraws(die), count - 1, sides, mods, best);
    assert dice[1] == Pool(o, DieDraws(die), count - 1, sides, mods)[0];
    WorstIsDropped(dice, mods.keep.value);
    DropThenReroll(dice, KeptOf(dice, mods.keep));
  }

  /** The first die stands in the middle, the second is rerolled from the worst face. */
  ghost function Middle(twos: nat, highest: bool): Oracle {
    (n: nat, sides: nat) =>
      if n < twos then (if sides >= 2 then 2 else 1) else if (n == twos) == highest then 1 else sides
  }

  lemma MiddleDice(o: Oracle, twos: nat, sides: nat, mods: Mods, best: nat)
    requires sides >= 3 && ThresholdFits(mods, sides) && CanReroll(mods, sides) && mods.keep.Some?
    requires mods.keep.value.highest == mods.reroll.value.comparator.Below?
    requires twos == (if Fires(mods, 2) then 2 else 1) && best == (if mods.keep.value.highest then sides else 1)
    requires o == Middle(twos, mods.keep.value.highest)
    ensures var one, two := RollDie(o, 0, sides, mods), RollDie(o, twos, sides, mods);
            && one.value == 2 && DieDraws(one) == twos
            && two.value == best && two.rerolledFrom.Some? && two.rerolledFrom.value != 2
  {
  }

  /** The first die shows a 2 and stays, every other die the best face. */
  lemma MiddlePool(o: Oracle, twos: nat, count: nat, sides: nat, mods: Mods, best: nat)
    requires count >= 2 && sides >= 3 && ThresholdFits(mods, sides) && CanReroll(mods, sides) && mods.keep.Some?
    requires mods.keep.value.highest == mods.reroll.value.comparator.Below?
    requires twos == (if Fires(mods, 2) then 2 else 1) && best == (if mods.keep.value.highest then sides else 1)
    requires o == Middle(twos, mods.keep.value.highest)
    ensures var dice := Pool(o, 0, count, sides, mods);
            && |dice| == count && dice[0].value == 2
            && dice[1].rerolledFrom.Some? && dice[1].rerolledFrom.value != 2
            && forall i :: 1 <= i < count ==> dice[i].value == best
  {
    hide RollDie, Explosions;
    var one, two := RollDie(o, 0, sides, mods), RollDie(o, twos, sides, mods);
    MiddleDice(o, twos, sides, mods, best);
    FirstDieOf(o, 0, count, sides, mods);
    FirstDieOf(o, twos, count - 1, sides, mods);
    ConstantDice(o, twos + DieDraws(two), count - 2, sides, mods, best);
    MiddleRest(one, two, Pool(o, twos + DieDraws(two), count - 2, sides, mods), best);
  }

  lemma MiddleRest(one: RolledDie, two: RolledDie, rest: seq<RolledDie>, best: nat)
    requires two.value == best && forall i :: 0 <= i < |rest| ==> rest[i].value == best
    ensures var dice := [one] + ([two] + rest);
            dice[0] == one && dice[1] == two && forall i :: 1 <= i < |dice| ==> dice[i].value == best
  {
  }

  lemma MiddleIsDropped(count: nat, sides: nat, mods: Mods)
    requires count >= 2 && sides >= 3 && KeepFits(mods, count) && ThresholdFits(mods, sides) && CanReroll(mods, sides)
    requires mods.keep.Some? && mods.keep.value.n < count &&
             mods.keep.value.highest == mods.reroll.value.comparator.Below?
    ensures !DroppedInOrder(Middle(if Fires(mods, 2) then 2 else 1, mods.keep.value.highest), 0, count, sides, mods)
  {
    hide Pool, RollDie, DieDraws, KeptOf;
    var twos := if Fires(mods, 2) then 2 else 1;
    var o := Middle(twos, mods.keep.value.highest);
    var dice := Pool(o, 0, count, sides, mods);
    MiddlePool(o, twos, count, sides, mods, if mods.keep.value.highest then sides else 1);
    WorstIsDropped(dice, mods.keep.value);
    DropThenReroll(dice, KeptOf(dice, mods.keep));
  }

  lemma {:induction false} SameChain(o: Oracle, other: Oracle, at: nat, sides: nat, current: nat, left: nat)
    requires forall n: nat :: at <= n < at + |Explosions(o, at, sides, current, left)| ==>
             o(n, sides) == other(n, sides)
    ensures Explosions(o, at, sides, current, left) == Explosions(other, at, sides, current, left)
    decreases left
  {
    if current == sides && left > 0 {
      assert o(at, sides) == other(at, sides);
      SameChain(o, other, at + 1, sides, o(at, sides), left - 1);
    }
  }

  lemma SameDie(o: Oracle, other: Oracle, at: nat, sides: nat, mods: Mods)
    requires forall n: nat :: at <= n < at + DieDraws(RollDie(o, at, sides, mods)) ==> o(n, sides) == other(n, sides)
    ensures RollDie(o, at, sides, mods) == RollDie(other, at, sides, mods)
  {
    var die := RollDie(o, at, sides, mods);
    var next := if die.rerolledFrom.Some? then at + 2 else at + 1;
    assert o(at, sides) == other(at, sides);
    if die.rerolledFrom.Some? { assert o(at + 1, sides) == other(at + 1, sides); }
    if mods.explode { SameChain(o, other, next, sides, die.value, MAX_EXPLOSIONS_PER_DIE); }
  }

  /** Sources that agree on what a pool draws roll the same pool. */
  lemma {:induction false} SamePool(o: Oracle, other: Oracle, at: nat, count: nat, sides: nat, mods: Mods)
    requires forall n: nat :: at <= n < at + Draws(Pool(o, at, count, sides, mods)) ==> o(n, sides) == other(n, sides)
    ensures Pool(o, at, count, sides, mods) == Pool(other, at, count, sides, mods)
    decreases count
  {
    hide RollDie, DieDraws;
    if count > 0 {
      var next := at + DieDraws(RollDie(o, at, sides, mods));
      FirstDieOf(o, at, count, sides, mods);
      FirstDieOf(other, at, count, sides, mods);
      FirstDie(DieAt(o, sides, mods), at, count);
      SameDie(o, other, at, sides, mods);
      SamePool(o, other, next, count - 1, sides, mods);
    }
  }

  lemma {:induction false} PoolSplit(o: Oracle, at: nat, a: nat, b: nat, sides: nat, mods: Mods)
    ensures var first := Pool(o, at, a, sides, mods);
            Pool(o, at, a + b, sides, mods) == first + Pool(o, at + Draws(first), b, sides, mods)
    decreases a
  {
    if a > 0 {
      var next := at + DieDraws(RollDie(o, at, sides, mods));
      FirstDieOf(o, at, a, sides, mods);
      FirstDieOf(o, at, a + b, sides, mods);
      FirstDie(DieAt(o, sides, mods), at, a);
      PoolSplit(o, next, a - 1, b, sides, mods);
    }
  }

  ghost function Best(highest: bool): Oracle {
    (n: nat, sides: nat) => if highest then sides else 1
  }

  /** How often the dice before the rerolled one are drawn. */
  ghost function DrawsBefore(sides: nat, mods: Mods): nat
    requires mods.keep.Some?
  {
    Draws(Pool(Best(mods.keep.value.highest), 0, mods.keep.value.n + 1, sides, mods))
  }

  lemma FrontIsBest(count: nat, sides: nat, mods: Mods)
    requires sides >= 2 && mods.keep.Some? && mods.keep.value.n + 2 <= count
    ensures var highest, many, p := mods.keep.value.highest, mods.keep.value.n + 1, DrawsBefore(sides, mods);
            var o := Odd(p, highest);
            Pool(o, 0, count, sides, mods) == Pool(Best(highest), 0, many, sides, mods) +
                Pool(o, p, count - many, sides, mods)
  {
    var highest, many, p := mods.keep.value.highest, mods.keep.value.n + 1, DrawsBefore(sides, mods);
    SamePool(Best(highest), Odd(p, highest), 0, many, sides, mods);
    PoolSplit(Odd(p, highest), 0, many, count - many, sides, mods);
  }

  /** The pool this makes: dice of the best face, and behind them one rerolled from the worst. */
  lemma EqualDice(count: nat, sides: nat, mods: Mods)
    requires sides >= 2 && ThresholdFits(mods, sides) && CanReroll(mods, sides)
    requires mods.keep.Some? && mods.keep.value.n + 2 <= count &&
             mods.keep.value.highest == mods.reroll.value.comparator.Below?
    ensures var highest, many := mods.keep.value.highest, mods.keep.value.n + 1;
            var dice := Pool(Odd(DrawsBefore(sides, mods), highest), 0, count, sides, mods);
            && (forall k :: 0 <= k < many ==>
                  dice[k].rerolledFrom.None? && dice[k].value == if highest then sides else 1)
            && dice[many].rerolledFrom == Some(if highest then 1 else sides)
  {
    var highest, many, p := mods.keep.value.highest, mods.keep.value.n + 1, DrawsBefore(sides, mods);
    var o := Odd(p, highest);
    FrontIsBest(count, sides, mods);
    ConstantDice(Best(highest), 0, many, sides, mods, if highest then sides else 1);
    FirstDieOf(o, p, count - many, sides, mods);
    assert Pool(o, p, count - many, sides, mods)[0] == RollDie(o, p, sides, mods);
  }

  lemma NotAllInside(n: nat, kept: set<nat>) returns (i: nat)
    requires |kept| < n
    ensures i < n && i !in kept
  {
    IndicesNumber(n);
    if FirstIndices(n) <= kept { PartSize(FirstIndices(n), kept); }
    i :| i in FirstIndices(n) && i !in kept;
  }

  lemma OneOfManyIsDropped(dice: seq<RolledDie>, keep: Keep) returns (i: nat)
    requires keep.n < |dice|
    ensures i <= keep.n && i !in KeptOf(dice, Some(keep))
  {
    KeptLeads(Values(dice), keep.highest, keep.n);
    i := NotAllInside(keep.n + 1, KeptOf(dice, Some(keep)));
  }

  /** All dice stand at the best face, one more than can be kept; the next is rerolled from the worst. */
  lemma EqualIsDropped(count: nat, sides: nat, mods: Mods)
    requires sides >= 2 && KeepFits(mods, count) && ThresholdFits(mods, sides) && CanReroll(mods, sides)
    requires mods.keep.Some? && mods.keep.value.n + 2 <= count &&
             mods.keep.value.highest == mods.reroll.value.comparator.Below?
    ensures !DroppedInOrder(Odd(DrawsBefore(sides, mods), mods.keep.value.highest), 0, count, sides, mods)
  {
    var highest := mods.keep.value.highest;
    var dice := Pool(Odd(DrawsBefore(sides, mods), highest), 0, count, sides, mods);
    EqualDice(count, sides, mods);
    var i := OneOfManyIsDropped(dice, mods.keep.value);
    DropsThenReroll(dice, 0, KeptOf(dice, mods.keep), if highest then sides else 1, i, mods.keep.value.n + 1);
  }

  /** A pool's dropped values are in draw order whatever its dice show if and only if no face is rerolled, no
      die is dropped, or the order cannot show. */
  lemma DroppedAreInDrawOrderExactlyWhen(count: nat, sides: nat, mods: Mods)
    requires count >= 1 && sides >= 2 && KeepFits(mods, count) && ThresholdFits(mods, sides)
    ensures (forall o, at :: OnDie(o) ==> DroppedInOrder(o, at, count, sides, mods)) <==>
            !CanReroll(mods, sides) || mods.keep.None? || mods.keep.value.n == count ||
                OrderCannotShow(count, sides, mods)
  {
    if !CanReroll(mods, sides) || mods.keep.None? || mods.keep.value.n == count || OrderCannotShow(count, sides, mods) {
      forall o, at | OnDie(o) ensures DroppedInOrder(o, at, count, sides, mods) {
        DroppedIsInOrder(o, at, count, sides, mods);
      }
    } else {
      var highest := mods.keep.value.highest;
      var o: Oracle;
      if highest != mods.reroll.value.comparator.Below? {
        BestIsRerolled(count, sides, mods);
        o := Odd(0, highest);
      } else if mods.keep.value.n + 2 <= count {
        EqualIsDropped(count, sides, mods);
        o := Odd(DrawsBefore(sides, mods), highest);
      } else {
        MiddleIsDropped(count, sides, mods);
        o := Middle(if Fires(mods, 2) then 2 else 1, highest);
      }
      assert OnDie(o) && !DroppedInOrder(o, 0, count, sides, mods);
    }
  }

  /** "2d6khro>3" drawing 1, 6 and 6: the 1 was dropped before the first 6 was rerolled, and is listed behind it. */
  lemma LowThenRerolledExample()
    ensures !DroppedInOrder(Odd(0, true), 0, 2, 6, Mods(Some(Keep(true, 1)), Some(Reroll(Above, 3)), false))
  {
    BestIsRerolled(2, 6, Mods(Some(Keep(true, 1)), Some(Reroll(Above, 3)), false));
  }

  // ---------------------------------------------------------------- when explosions are drawn

  /** The chains of dice already rolled, drawn from `at` on in die order. */
  ghost function AddChains(o: Oracle, at: nat, sides: nat, dice: seq<RolledDie>): seq<RolledDie>
    decreases dice
  {
    if dice == [] then []
    else
      var chain := Explosions(o, at, sides, dice[0].value, MAX_EXPLOSIONS_PER_DIE);
      [dice[0].(explodedTo := chain)] + AddChains(o, at + |chain|, sides, dice[1..])
  }

  /** A pool as the comment has it: all dice with their rerolls, then the explosions. */
  ghost function DocumentedPool(o: Oracle, at: nat, count: nat, sides: nat, mods: Mods): seq<RolledDie> {
    var dice := Pool(o, at, count, sides, mods.(explode := false));
    if mods.explode then AddChains(o, at + Draws(dice), sides, dice) else dice
  }

  lemma ChainBehind(o: Oracle, at: nat, sides: nat, mods: Mods)
    requires mods.explode
    ensures var die := RollDie(o, at, sides, mods.(explode := false));
            var chain := Explosions(o, at + DieDraws(die), sides, die.value, MAX_EXPLOSIONS_PER_DIE);
            RollDie(o, at, sides, mods) == die.(explodedTo := chain)
  {
  }

  lemma OneChain(o: Oracle, at: nat, sides: nat, die: RolledDie)
    ensures AddChains(o, at, sides, [die]) ==
            [die.(explodedTo := Explosions(o, at, sides, die.value, MAX_EXPLOSIONS_PER_DIE))]
    ensures Draws([die]) == DieDraws(die)
  {
    assert [die][1..] == [];
  }

  lemma OneDieAsDocumented(o: Oracle, at: nat, sides: nat, mods: Mods)
    requires mods.explode
    ensures DocumentedPool(o, at, 1, sides, mods) == Pool(o, at, 1, sides, mods)
  {
    ChainBehind(o, at, sides, mods);
    PoolOfOne(o, at, sides, mods);
    PoolOfOne(o, at, sides, mods.(explode := false));
    ghost var dice := Pool(o, at, 1, sides, mods.(explode := false));
    OneChain(o, at + Draws(dice), sides, dice[0]);
  }

  /** The first die explodes into a 1; later draws show the highest face. */
  ghost function OneLow(high: nat): Oracle {
    (n: nat, sides: nat) => if n == high then 1 else sides
  }

  /** In the pool's own order the first die's chain starts right behind it, with a 1. */
  lemma EarlyChain(o: Oracle, high: nat, count: nat, sides: nat, mods: Mods)
    requires count >= 2 && sides >= 2 && mods.explode && o == OneLow(high)
    requires high == (if Fires(mods, sides) then 2 else 1)
    ensures var pool := Pool(o, 0, count, sides, mods);
            pool != [] && |pool[0].explodedTo| > 0 && pool[0].explodedTo[0] == 1
  {
    FirstDieOf(o, 0, count, sides, mods);
    assert Explosions(o, high, sides, sides, 10) == [1] + Explosions(o, high + 1, sides, 1, 9);
  }

  lemma DrawnPastLow(o: Oracle, high: nat, count: nat, sides: nat, plain: Mods)
    requires count >= 2 && sides >= 2 && !plain.explode && o == OneLow(high) && ThresholdFits(plain, sides)
    requires high == (if Fires(plain, sides) then 2 else 1)
    ensures var dice := Pool(o, 0, count, sides, plain); dice != [] && dice[0].value == sides && Draws(dice) > high
  {
    var die := RollDie(o, 0, sides, plain);
    assert DieDraws(die) == high && die.value == sides;
    hide RollDie, Pool, Explosions;
    FirstDieOf(o, 0, count, sides, plain);
    FirstDieOf(o, high, count - 1, sides, plain);
    FirstDie(DieAt(o, sides, plain), 0, count);
    FirstDie(DieAt(o, sides, plain), high, count - 1);
  }

  lemma BestChain(o: Oracle, high: nat, at: nat, sides: nat)
    requires sides >= 2 && o == OneLow(high) && at > high
    ensures var chain := Explosions(o, at, sides, sides, MAX_EXPLOSIONS_PER_DIE); chain != [] && chain[0] == sides
  {
    assert Explosions(o, at, sides, sides, 10) == [sides] + Explosions(o, at + 1, sides, sides, 9);
  }

  /** Drawn after all dice it starts with a highest face. */
  lemma LateChain(o: Oracle, high: nat, count: nat, sides: nat, mods: Mods)
    requires count >= 2 && sides >= 2 && mods.explode && o == OneLow(high) && ThresholdFits(mods, sides)
    requires high == (if Fires(mods, sides) then 2 else 1)
    ensures var pool := DocumentedPool(o, 0, count, sides, mods);
            pool != [] && |pool[0].explodedTo| > 0 && pool[0].explodedTo[0] == sides
  {
    hide Pool, Draws, RollDie, Explosions;
    var plain := mods.(explode := false);
    var dice := Pool(o, 0, count, sides, plain);
    var at := Draws(dice);
    DrawnPastLow(o, high, count, sides, plain);
    BestChain(o, high, at, sides);
  }

  lemma ChainsComeEarly(count: nat, sides: nat, mods: Mods)
    requires count >= 2 && sides >= 2 && mods.explode && ThresholdFits(mods, sides)
    ensures var o := OneLow(if Fires(mods, sides) then 2 else 1);
            DocumentedPool(o, 0, count, sides, mods) != Pool(o, 0, count, sides, mods)
  {
    hide Pool, DocumentedPool, OneLow;
    var high := if Fires(mods, sides) then 2 else 1;
    EarlyChain(OneLow(high), high, count, sides, mods);
    LateChain(OneLow(high), high, count, sides, mods);
  }

  /** Drawing explosions after all dice would give the same pool whatever the dice show if and only if the
      pool does not explode or is a single die. */
  lemma ExplosionsComeLastExactlyWhen(count: nat, sides: nat, mods: Mods)
    requires count >= 1 && sides >= 2 && ThresholdFits(mods, sides)
    ensures (forall o, at :: OnDie(o) ==>
               DocumentedPool(o, at, count, sides, mods) == Pool(o, at, count, sides, mods)) <==>
            !mods.explode || count == 1
  {
    if mods.explode && count > 1 {
      var o := OneLow(if Fires(mods, sides) then 2 else 1);
      ChainsComeEarly(count, sides, mods);
      assert OnDie(o);
    } else {
      forall o, at | OnDie(o) ensures DocumentedPool(o, at, count, sides, mods) == Pool(o, at, count, sides, mods) {
        if mods.explode { OneDieAsDocumented(o, at, sides, mods); } else { assert mods.(explode := false) == mods; }
      }
    }
  }
}
