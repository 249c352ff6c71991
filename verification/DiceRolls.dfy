/** Evaluation of a dice expression (client/src/api/dice_notation.ts): rerolls, explosions, keeps
    and the cap on dice, over a source of die values. */
module DiceRolls {
  import opened Text
  import opened DiceGrammar
  import opened DicePrinter
  import opened KeepSelection

  const MAX_DICE_PER_EXPRESSION := 2000
  const MAX_EXPLOSIONS_PER_DIE := 10

  /** The value a die source gives for its n-th draw when asked for a die of so many sides. */
  type Oracle = (nat, nat) -> nat

  datatype RolledDie = RolledDie(value: nat, kept: bool, rerolledFrom: Option<nat>, explodedTo: seq<nat>)

  datatype RolledTerm = RolledConstant(amount: int) | RolledDice(sides: nat, dice: seq<RolledDie>)

  datatype RollError = TooManyDice | KeepOutOfDice | ThresholdOutOfDie | BadExpression(error: DiceError)

  /** The source's accumulators; `log` is every value drawn so far. */
  datatype Tally = Tally(terms: seq<RolledTerm>, rolls: seq<int>, dropped: seq<int>, modifier: int, totalRolled: nat,
                         log: seq<int>)

  datatype Outcome = Done(tally: Tally) | Failed(error: RollError, drawn: nat)

  const Start := Tally([], [], [], 0, 0, [])

  // ---------------------------------------------------------------- one die

  predicate Rerolls(reroll: Reroll, value: nat) {
    if reroll.comparator.Below? then value < reroll.threshold else value > reroll.threshold
  }

  /** The bonus values a die showing `current` earns. */
  function Explosions(o: Oracle, at: nat, sides: nat, current: nat, left: nat): seq<nat>
    decreases left
  {
    if current == sides && left > 0 then [o(at, sides)] + Explosions(o, at + 1, sides, o(at, sides), left - 1) else []
  }

  /** A die that stands at `value`, with its bonus rolls drawn from `next` on. */
  function Stand(o: Oracle, next: nat, sides: nat, explode: bool, value: nat, rerolledFrom: Option<nat>): RolledDie {
    var bonus := if explode then Explosions(o, next, sides, value, MAX_EXPLOSIONS_PER_DIE) else [];
    RolledDie(value, true, rerolledFrom, bonus)
  }

  function RollDie(o: Oracle, at: nat, sides: nat, mods: Mods): RolledDie {
    var first := o(at, sides);
    if mods.reroll.Some? && Rerolls(mods.reroll.value, first)
    then Stand(o, at + 2, sides, mods.explode, o(at + 1, sides), Some(first))
    else Stand(o, at + 1, sides, mods.explode, first, None)
  }

  /** The die that is rolled when its first draw is the `at`-th. */
  function DieAt(o: Oracle, sides: nat, mods: Mods): nat -> RolledDie {
    (at: nat) => RollDie(o, at, sides, mods)
  }

  /** How often a die was rolled in all. */
  function DieDraws(die: RolledDie): nat {
    1 + (if die.rerolledFrom.Some? then 1 else 0) + |die.explodedTo|
  }

  /** Dice are rolled one after the other, each continuing where the one before stopped drawing. */
  function RollDice(roll: nat -> RolledDie, at: nat, n: nat): (dice: seq<RolledDie>)
    ensures |dice| == n
    decreases n
  {
    if n == 0 then [] else [roll(at)] + RollDice(roll, at + DieDraws(roll(at)), n - 1)
  }

  function Draws(dice: seq<RolledDie>): nat {
    if dice == [] then 0 else DieDraws(dice[0]) + Draws(dice[1..])
  }

  // ---------------------------------------------------------------- what a pool of dice records

  function Values(dice: seq<RolledDie>): (r: seq<nat>)
    ensures |r| == |dice|
  {
    seq(|dice|, i requires 0 <= i < |dice| => dice[i].value)
  }

  function AsInts(s: seq<nat>): seq<int> {
    if s == [] then [] else [s[0] as int] + AsInts(s[1..])
  }

  function RerolledFrom(die: RolledDie): seq<int> {
    if die.rerolledFrom.Some? then [die.rerolledFrom.value as int] else []
  }

  /** First values discarded by rerolls, in die order. */
  function RerolledValues(dice: seq<RolledDie>): seq<int> {
    if dice == [] then [] else RerolledFrom(dice[0]) + RerolledValues(dice[1..])
  }

  /** Explosion values, in die order. */
  function BonusValues(dice: seq<RolledDie>): seq<int> {
    if dice == [] then [] else AsInts(dice[0].explodedTo) + BonusValues(dice[1..])
  }

  /** Standing values of the dice whose being kept is `keep`; the first die has index `from`. */
  function ValuesWhere(dice: seq<RolledDie>, from: nat, kept: set<nat>, keep: bool): seq<int> {
    if dice == [] then []
    else if (from in kept) == keep then [dice[0].value as int] + ValuesWhere(dice[1..], from + 1, kept, keep)
    else ValuesWhere(dice[1..], from + 1, kept, keep)
  }

  function MarkKept(dice: seq<RolledDie>, from: nat, kept: set<nat>): seq<RolledDie> {
    if dice == [] then [] else [dice[0].(kept := from in kept)] + MarkKept(dice[1..], from + 1, kept)
  }

  /** The values a die source gives from draw `at` on. */
  function Answers(o: Oracle, at: nat, n: nat, sides: nat): (r: seq<int>)
    ensures |r| == n
  {
    seq(n, i requires 0 <= i < n => o(at + i, sides) as int)
  }

  function FirstIndices(n: nat): (r: set<nat>)
    ensures forall i: nat :: i in r <==> i < n
  {
    if n == 0 then {} else FirstIndices(n - 1) + {n - 1}
  }

  function KeptOf(dice: seq<RolledDie>, keep: Option<Keep>): set<nat>
    requires keep.Some? ==> keep.value.n <= |dice|
  {
    if keep.None? then FirstIndices(|dice|) else Kept(Values(dice), keep.value.highest, keep.value.n)
  }

  // ---------------------------------------------------------------- terms

  predicate KeepFits(mods: Mods, count: nat) {
    mods.keep.Some? ==> 1 <= mods.keep.value.n <= count
  }

  predicate ThresholdFits(mods: Mods, sides: nat) {
    mods.reroll.Some? ==> 1 <= mods.reroll.value.threshold <= sides
  }

  /** The pool of a dice term, kept and recorded. */
  function Record(t: Tally, sides: nat, dice: seq<RolledDie>, keep: Option<Keep>, drawn: seq<int>): Tally
    requires keep.Some? ==> keep.value.n <= |dice|
  {
    var kept := KeptOf(dice, keep);
    Tally(t.terms + [RolledDice(sides, MarkKept(dice, 0, kept))],
          t.rolls + (ValuesWhere(dice, 0, kept, true) + BonusValues(dice)),
          t.dropped + RerolledValues(dice) + ValuesWhere(dice, 0, kept, false),
          t.modifier, t.totalRolled + Draws(dice), t.log + drawn)
  }

  function Signed(sign: Sign, amount: nat): int {
    if sign.Minus? then -(amount as int) else amount as int
  }

  ghost function EvalTerm(term: Term, o: Oracle, t: Tally): Outcome {
    match term
    case Constant(sign, amount) =>
      Done(t.(terms := t.terms + [RolledConstant(Signed(sign, amount))], modifier := t.modifier + Signed(sign, amount)))
    case Dice(_, count, sides, mods) =>
      if t.totalRolled + count > MAX_DICE_PER_EXPRESSION then Failed(TooManyDice, |t.log|)
      else if !KeepFits(mods, count) then Failed(KeepOutOfDice, |t.log|)
      else if !ThresholdFits(mods, sides) && count > 0 then Failed(ThresholdOutOfDie, |t.log| + 1)
      else
        var dice := RollDice(DieAt(o, sides, mods), |t.log|, count);
        if t.totalRolled + Draws(dice) > MAX_DICE_PER_EXPRESSION then Failed(TooManyDice, |t.log| + Draws(dice))
        else Done(Record(t, sides, dice, mods.keep, Answers(o, |t.log|, Draws(dice), sides)))
  }

  ghost function EvalTerms(terms: seq<Term>, o: Oracle, t: Tally): Outcome {
    if terms == [] then Done(t)
    else match EvalTerm(terms[0], o, t)
         case Failed(e, n) => Failed(e, n)
         case Done(t') => EvalTerms(terms[1..], o, t')
  }

  // ---------------------------------------------------------------- conservation of draws

  lemma AnswersAppend(o: Oracle, at: nat, m: nat, n: nat, sides: nat)
    ensures Answers(o, at, m + n, sides) == Answers(o, at, m, sides) + Answers(o, at + m, n, sides)
  {
  }

  lemma {:induction false} ExplosionsAreAnswers(o: Oracle, at: nat, sides: nat, current: nat, left: nat)
    ensures var bonus := Explosions(o, at, sides, current, left);
            |bonus| <= left && AsInts(bonus) == Answers(o, at, |bonus|, sides)
    decreases left
  {
    if current == sides && left > 0 {
      var rest := Explosions(o, at + 1, sides, o(at, sides), left - 1);
      ExplosionsAreAnswers(o, at + 1, sides, o(at, sides), left - 1);
      AnswersAppend(o, at, 1, |rest|, sides);
    }
  }

  /** A die's values in the order they were drawn. */
  ghost function DieValues(die: RolledDie): seq<int> {
    RerolledFrom(die) + ([die.value as int] + AsInts(die.explodedTo))
  }

  ghost predicate DrawsItsValues(o: Oracle, sides: nat, at: nat, die: RolledDie) {
    DieDraws(die) <= 12 && Answers(o, at, DieDraws(die), sides) == DieValues(die)
  }

  lemma StandDraws(o: Oracle, next: nat, sides: nat, explode: bool, value: nat, rerolledFrom: Option<nat>)
    ensures var die := Stand(o, next, sides, explode, value, rerolledFrom);
            |die.explodedTo| <= MAX_EXPLOSIONS_PER_DIE &&
                AsInts(die.explodedTo) == Answers(o, next, |die.explodedTo|, sides)
  {
    ExplosionsAreAnswers(o, next, sides, value, MAX_EXPLOSIONS_PER_DIE);
  }

  /** What one die drew is its discarded value, its standing value and its bonus values. */
  lemma DieDrawsItsValues(o: Oracle, at: nat, sides: nat, mods: Mods)
    ensures DrawsItsValues(o, sides, at, DieAt(o, sides, mods)(at))
  {
    hide Explosions;
    var die := RollDie(o, at, sides, mods);
    var next := if die.rerolledFrom.Some? then at + 2 else at + 1;
    StandDraws(o, next, sides, mods.explode, die.value, die.rerolledFrom);
    AnswersAppend(o, at, next - at, |die.explodedTo|, sides);
    assert Answers(o, at, next - at, sides) == RerolledFrom(die) + [die.value as int];
  }

  /** The values of a pool in the order they were drawn: die by die, each with its own explosions. */
  ghost function PoolValues(dice: seq<RolledDie>): seq<int> {
    if dice == [] then [] else DieValues(dice[0]) + PoolValues(dice[1..])
  }

  /** What a pool drew is what its dice were rolled as. */
  lemma {:induction false} PoolDraws(o: Oracle, sides: nat, roll: nat -> RolledDie, at: nat, n: nat)
    requires forall k: nat :: DrawsItsValues(o, sides, k, roll(k))
    ensures var dice := RollDice(roll, at, n);
            Draws(dice) <= 12 * n && Answers(o, at, Draws(dice), sides) == PoolValues(dice)
    decreases n
  {
    if n > 0 {
      var die := roll(at);
      assert RollDice(roll, at, n) == [die] + RollDice(roll, at + DieDraws(die), n - 1);
      assert DrawsItsValues(o, sides, at, die);
      PoolDraws(o, sides, roll, at + DieDraws(die), n - 1);
      PoolStep(o, at, sides, die, RollDice(roll, at + DieDraws(die), n - 1));
    }
  }

  lemma PoolStep(o: Oracle, at: nat, sides: nat, die: RolledDie, rest: seq<RolledDie>)
    requires Answers(o, at, DieDraws(die), sides) == DieValues(die)
    requires Answers(o, at + DieDraws(die), Draws(rest), sides) == PoolValues(rest)
    ensures Draws([die] + rest) == DieDraws(die) + Draws(rest)
    ensures Answers(o, at, Draws([die] + rest), sides) == PoolValues([die] + rest)
  {
    assert ([die] + rest)[1..] == rest;
    AnswersAppend(o, at, DieDraws(die), Draws(rest), sides);
  }

  /** Everything a pool leaves behind, wherever it is recorded. */
  ghost function Recorded(dice: seq<RolledDie>, from: nat, kept: set<nat>): multiset<int> {
    multiset(RerolledValues(dice)) + multiset(ValuesWhere(dice, from, kept, true)) +
    multiset(ValuesWhere(dice, from, kept, false)) + multiset(BonusValues(dice))
  }

  /** Each value a die was rolled as is recorded once: as discarded, standing, dropped or bonus. */
  lemma {:induction false} RolledIsRecorded(dice: seq<RolledDie>, from: nat, kept: set<nat>)
    ensures multiset(PoolValues(dice)) == Recorded(dice, from, kept)
    decreases dice
  {
    if dice != [] {
      RolledIsRecorded(dice[1..], from + 1, kept);
      var here := from in kept;
      assert ValuesWhere(dice, from, kept, here) ==
             [dice[0].value as int] + ValuesWhere(dice[1..], from + 1, kept, here);
      assert ValuesWhere(dice, from, kept, !here) == ValuesWhere(dice[1..], from + 1, kept, !here);
    }
  }

  ghost predicate Conserves(t: Tally) {
    && multiset(t.log) == multiset(t.rolls) + multiset(t.dropped)
    && t.totalRolled == |t.log| <= MAX_DICE_PER_EXPRESSION
  }

  lemma BooksBalance(log: seq<int>, rolls: seq<int>, dropped: seq<int>, drawn: seq<int>,
                     standing: seq<int>, bonus: seq<int>, rerolled: seq<int>, out: seq<int>)
    requires multiset(log) == multiset(rolls) + multiset(dropped)
    requires multiset(drawn) == multiset(rerolled) + multiset(standing) + multiset(out) + multiset(bonus)
    ensures multiset(log + drawn) == multiset(rolls + (standing + bonus)) + multiset(dropped + rerolled + out)
  {
  }

  lemma RecordConserves(t: Tally, o: Oracle, count: nat, sides: nat, mods: Mods)
    requires Conserves(t) && KeepFits(mods, count)
    ensures var dice := RollDice(DieAt(o, sides, mods), |t.log|, count);
            && Draws(dice) <= 12 * count
            && var t' := Record(t, sides, dice, mods.keep, Answers(o, |t.log|, Draws(dice), sides));
               t'.totalRolled <= MAX_DICE_PER_EXPRESSION ==> Conserves(t')
  {
    var dice := RollDice(DieAt(o, sides, mods), |t.log|, count);
    forall k: nat ensures DrawsItsValues(o, sides, k, DieAt(o, sides, mods)(k)) {
      DieDrawsItsValues(o, k, sides, mods);
    }
    PoolDraws(o, sides, DieAt(o, sides, mods), |t.log|, count);
    var kept := KeptOf(dice, mods.keep);
    RolledIsRecorded(dice, 0, kept);
    BooksBalance(t.log, t.rolls, t.dropped, PoolValues(dice), ValuesWhere(dice, 0, kept, true), BonusValues(dice),
                 RerolledValues(dice), ValuesWhere(dice, 0, kept, false));
  }

  /** A term keeps the books balanced, or fails after a bounded number of draws. */
  lemma TermConserves(term: Term, o: Oracle, t: Tally)
    requires InRange(term) && Conserves(t)
    ensures match EvalTerm(term, o, t)
            case Done(t') => Conserves(t')
            case Failed(_, drawn) => drawn <= 13000
  {
    if term.Dice? && KeepFits(term.mods, term.count) {
      RecordConserves(t, o, term.count, term.sides, term.mods);
    }
  }

  /** Every value drawn stands in `rolls` or in `dropped`, once for each time it was drawn; the
      running count is the number of draws; a roll that succeeds made at most 2000 of them and one
      that fails at most 13000. */
  lemma {:induction false} DrawsAreConserved(terms: seq<Term>, o: Oracle, t: Tally)
    requires AllInRange(terms) && Conserves(t)
    ensures match EvalTerms(terms, o, t)
            case Done(t') => Conserves(t')
            case Failed(_, drawn) => drawn <= 13000
  {
    if terms != [] {
      TermConserves(terms[0], o, t);
      if EvalTerm(terms[0], o, t).Done? {
        DrawsAreConserved(terms[1..], o, EvalTerm(terms[0], o, t).tally);
      }
    }
  }

  // ---------------------------------------------------------------- the result

  datatype Roll = Roll(terms: seq<RolledTerm>, rolls: seq<int>, dropped: seq<int>, modifier: int, total: int,
                       natural20: bool, natural1: bool)

  function Sum(s: seq<int>): int {
    if s == [] then 0 else s[0] + Sum(s[1..])
  }

  function DiceTerms(terms: seq<RolledTerm>): seq<RolledTerm> {
    if terms == [] then []
    else if terms[0].RolledDice? then [terms[0]] + DiceTerms(terms[1..])
    else DiceTerms(terms[1..])
  }

  predicate NoBonus(dice: seq<RolledDie>) {
    forall i :: 0 <= i < |dice| ==> dice[i].explodedTo == []
  }

  /** The natural flags look at a single die of a single d20 pool without bonus rolls; an expression
      of constants alone reports its value as its only roll. */
  function Finish(t: Tally): Roll {
    var total := Sum(t.rolls) + t.modifier;
    var pools := DiceTerms(t.terms);
    var single := |pools| == 1 && |t.rolls| == 1 && pools[0].RolledDice? && pools[0].sides == 20 &&
        NoBonus(pools[0].dice);
    if t.rolls == [] && pools == [] then Roll(t.terms, [t.modifier], t.dropped, 0, total, false, false)
    else Roll(t.terms, t.rolls, t.dropped, t.modifier, total, single && t.rolls[0] == 20, single && t.rolls[0] == 1)
  }

  ghost function Evaluate(expression: string, o: Oracle): Result<Roll, RollError> {
    match Parse(expression)
    case Err(e) => Err(BadExpression(e))
    case Ok(terms) =>
      match EvalTerms(terms, o, Start)
      case Failed(e, _) => Err(e)
      case Done(t) => Ok(Finish(t))
  }

  // ---------------------------------------------------------------- what the total is made of

  ghost function Constants(terms: seq<Term>): int {
    if terms == [] then 0
    else (if terms[0].Constant? then Signed(terms[0].sign, terms[0].amount) else 0) + Constants(terms[1..])
  }

  ghost predicate HasDice(terms: seq<Term>) {
    exists i :: 0 <= i < |terms| && terms[i].Dice?
  }

  lemma {:induction false} SumAppend(a: seq<int>, b: seq<int>)
    ensures Sum(a + b) == Sum(a) + Sum(b)
  {
    if a == [] {
      assert a + b == b;
    } else {
      assert (a + b)[1..] == a[1..] + b;
      SumAppend(a[1..], b);
    }
  }

  /** Standing values from index `from` on add up to the chosen dice from there on. */
  lemma {:induction false} StandingSum(dice: seq<RolledDie>, from: nat, kept: set<nat>)
    requires from <= |dice|
    ensures Sum(ValuesWhere(dice[from..], from, kept, true)) ==
            SumOf(Values(dice), kept) - SumTo(Values(dice), kept, from)
    decreases |dice| - from
  {
    if from < |dice| {
      StandingSum(dice, from + 1, kept);
      assert dice[from..][1..] == dice[from + 1..];
    }
  }

  /** Of all ways to keep as many dice, the one taken by 'kh' adds the most to the rolls and the
      one taken by 'kl' the least. */
  lemma KeepIsOptimal(dice: seq<RolledDie>, keep: Keep, other: set<nat>)
    requires keep.n <= |dice| && Chosen(Values(dice), other, keep.n)
    ensures var taken := Sum(ValuesWhere(dice, 0, KeptOf(dice, Some(keep)), true));
            var instead := Sum(ValuesWhere(dice, 0, other, true));
            if keep.highest then instead <= taken else taken <= instead
  {
    assert dice[0..] == dice;
    StandingSum(dice, 0, KeptOf(dice, Some(keep)));
    StandingSum(dice, 0, other);
    KeptIsOptimal(Values(dice), keep.highest, keep.n, other);
  }

  /** A pool that keeps a die adds at least one roll. */
  lemma {:induction false} SomeDieStands(dice: seq<RolledDie>, from: nat, kept: set<nat>, i: nat)
    requires i < |dice| && from + i in kept
    ensures ValuesWhere(dice, from, kept, true) != []
    decreases i
  {
    if i > 0 {
      SomeDieStands(dice[1..], from + 1, kept, i - 1);
    }
  }

  lemma TermAddsRolls(term: Term, o: Oracle, t: Tally)
    requires term.Dice? && term.count >= 1 && EvalTerm(term, o, t).Done?
    ensures EvalTerm(term, o, t).tally.rolls != []
  {
    var dice := RollDice(DieAt(o, term.sides, term.mods), |t.log|, term.count);
    var kept := KeptOf(dice, term.mods.keep);
    if term.mods.keep.None? {
      SomeDieStands(dice, 0, kept, 0);
    } else {
      KeptLeads(Values(dice), term.mods.keep.value.highest, term.mods.keep.value.n);
      assert |kept| >= 1;
      var i :| i in kept;
      SomeDieStands(dice, 0, kept, i);
    }
  }

  lemma {:induction false} ModifierIsConstants(terms: seq<Term>, o: Oracle, t: Tally)
    requires AllInRange(terms)
    ensures match EvalTerms(terms, o, t)
            case Failed(_, _) => true
            case Done(t') =>
              && t'.modifier == t.modifier + Constants(terms)
              && (t'.rolls == [] <==> t.rolls == [] && !HasDice(terms))
              && (DiceTerms(t'.terms) == [] <==> DiceTerms(t.terms) == [] && !HasDice(terms))
  {
    if terms != [] && EvalTerm(terms[0], o, t).Done? {
      var t1 := EvalTerm(terms[0], o, t).tally;
      ModifierIsConstants(terms[1..], o, t1);
      DiceTermsAppend(t.terms, t1.terms[|t.terms|]);
      assert HasDice(terms) <==> terms[0].Dice? || HasDice(terms[1..]);
      if terms[0].Dice? {
        TermAddsRolls(terms[0], o, t);
      }
    }
  }

  lemma {:induction false} DiceTermsAppend(terms: seq<RolledTerm>, last: RolledTerm)
    ensures DiceTerms(terms + [last]) == DiceTerms(terms) + if last.RolledDice? then [last] else []
  {
    if terms == [] {
      assert terms + [last] == [last];
    } else {
      assert (terms + [last])[1..] == terms[1..] + [last];
      DiceTermsAppend(terms[1..], last);
    }
  }

  /** The reported total is the reported rolls and modifier, and the modifier is exactly the signed
      constants; the sign of a dice term never counts. An expression of constants reports its value
      as its one roll; any other reports exactly what stood, so rolls and discards are all the draws. */
  lemma TotalAddsUp(expression: string, o: Oracle)
    ensures match Evaluate(expression, o)
            case Err(_) => true
            case Ok(roll) =>
              var terms := Parse(expression).value;
              && roll.total == Sum(roll.rolls) + roll.modifier
              && (if HasDice(terms)
                  then roll.modifier == Constants(terms) && EvalTerms(terms, o, Start).Done? &&
                       multiset(roll.rolls) + multiset(roll.dropped) == multiset(EvalTerms(terms, o, Start).tally.log)
                  else roll.modifier == 0 && roll.rolls == [Constants(terms)] && roll.dropped == [])
  {
    hide Parse, EvalTerms, InRange;
    if Parse(expression).Ok? {
      var terms := Parse(expression).value;
      ParseInRange(expression);
      DrawsAreConserved(terms, o, Start);
      ModifierIsConstants(terms, o, Start);
      if !HasDice(terms) {
        ConstantsDropNothing(terms, o, Start);
      }
    }
  }

  lemma {:induction false} ConstantsDropNothing(terms: seq<Term>, o: Oracle, t: Tally)
    requires !HasDice(terms)
    ensures EvalTerms(terms, o, t).Done? && EvalTerms(terms, o, t).tally.dropped == t.dropped
  {
    if terms != [] {
      assert terms[0].Constant?;
      assert forall i :: 0 <= i < |terms[1..]| ==> terms[1..][i] == terms[i + 1];
      ConstantsDropNothing(terms[1..], o, EvalTerm(terms[0], o, t).tally);
    }
  }

  // ---------------------------------------------------------------- the dice reported and the lists

  /** Values of the dice marked as kept, or as not. */
  ghost function MarkedValues(dice: seq<RolledDie>, keep: bool): seq<int> {
    if dice == [] then []
    else if dice[0].kept == keep then [dice[0].value as int] + MarkedValues(dice[1..], keep)
    else MarkedValues(dice[1..], keep)
  }

  /** What the reported terms say was rolled: of each pool the dice marked as kept, then all explosions. */
  ghost function RollsShown(terms: seq<RolledTerm>): seq<int> {
    if terms == [] then []
    else
      var last := terms[|terms| - 1];
      RollsShown(terms[..|terms| - 1]) +
      if last.RolledDice? then MarkedValues(last.dice, true) + BonusValues(last.dice) else []
  }

  /** And what was dropped: the values rerolled, then the dice marked as not kept. */
  ghost function DroppedShown(terms: seq<RolledTerm>): seq<int> {
    if terms == [] then []
    else
      var last := terms[|terms| - 1];
      DroppedShown(terms[..|terms| - 1]) +
      if last.RolledDice? then RerolledValues(last.dice) + MarkedValues(last.dice, false) else []
  }

  ghost function ConstantsShown(terms: seq<RolledTerm>): int {
    if terms == [] then 0
    else
      var last := terms[|terms| - 1];
      ConstantsShown(terms[..|terms| - 1]) + if last.RolledConstant? then last.amount else 0
  }

  ghost predicate Shown(t: Tally) {
    t.rolls == RollsShown(t.terms) && t.dropped == DroppedShown(t.terms) && t.modifier == ConstantsShown(t.terms)
  }

  lemma {:induction false} MarkedAreWhere(dice: seq<RolledDie>, from: nat, kept: set<nat>, keep: bool)
    ensures var marked := MarkKept(dice, from, kept);
            && MarkedValues(marked, keep) == ValuesWhere(dice, from, kept, keep)
            && BonusValues(marked) == BonusValues(dice) && RerolledValues(marked) == RerolledValues(dice)
  {
    if dice != [] { MarkedAreWhere(dice[1..], from + 1, kept, keep); }
  }

  lemma TermShows(term: Term, o: Oracle, t: Tally)
    requires Shown(t) && EvalTerm(term, o, t).Done?
    ensures Shown(EvalTerm(term, o, t).tally)
  {
    var after := EvalTerm(term, o, t).tally;
    var n := |t.terms|;
    assert after.terms[..n] == t.terms && |after.terms| == n + 1;
    match term
    case Constant(sign, amount) =>
      assert after.rolls == t.rolls + [] && after.dropped == t.dropped + [];
    case Dice(_, count, sides, mods) =>
      var dice := RollDice(DieAt(o, sides, mods), |t.log|, count);
      var kept := KeptOf(dice, mods.keep);
      MarkedAreWhere(dice, 0, kept, true);
      MarkedAreWhere(dice, 0, kept, false);
      Grouped(t.dropped, RerolledValues(dice), ValuesWhere(dice, 0, kept, false));
  }

  lemma Grouped(a: seq<int>, b: seq<int>, c: seq<int>)
    ensures (a + b) + c == a + (b + c)
  {
  }

  /** The three totals are what the reported terms show. */
  lemma {:induction false} TermsShow(terms: seq<Term>, o: Oracle, t: Tally)
    requires Shown(t) && EvalTerms(terms, o, t).Done?
    ensures Shown(EvalTerms(terms, o, t).tally)
  {
    if terms != [] {
      hide Shown, EvalTerm;
      TermShows(terms[0], o, t);
      TermsShow(terms[1..], o, EvalTerm(terms[0], o, t).tally);
    }
  }

  /** Of every evaluated expression, the lists are read off the reported dice, and the total off the lists. */
  lemma ListsAreShown(expression: string, o: Oracle)
    requires Evaluate(expression, o).Ok? && HasDice(Parse(expression).value)
    ensures var roll := Evaluate(expression, o).value;
            && roll.rolls == RollsShown(roll.terms) && roll.dropped == DroppedShown(roll.terms)
            && roll.total == Sum(roll.rolls) + ConstantsShown(roll.terms)
  {
    var terms := Parse(expression).value;
    TermsShow(terms, o, Start);
    TermsAreRolled(terms, o, Start);
    var t := EvalTerms(terms, o, Start).tally;
    NoPools(t.terms);
    var i :| 0 <= i < |terms| && terms[i].Dice?;
    assert SameTerm(terms[i], t.terms[i]);
  }

  // ---------------------------------------------------------------- natural 20 and natural 1

  ghost predicate SameTerm(term: Term, rolled: RolledTerm) {
    match term
    case Constant(sign, amount) => rolled == RolledConstant(Signed(sign, amount))
    case Dice(_, count, sides, _) => rolled.RolledDice? && rolled.sides == sides && |rolled.dice| == count
  }

  lemma {:induction false} MarkKeeps(dice: seq<RolledDie>, from: nat, kept: set<nat>)
    ensures |MarkKept(dice, from, kept)| == |dice|
    ensures forall i :: 0 <= i < |dice| ==> MarkKept(dice, from, kept)[i] == dice[i].(kept := from + i in kept)
  {
    if dice != [] {
      var rest := MarkKept(dice[1..], from + 1, kept);
      MarkKeeps(dice[1..], from + 1, kept);
      assert MarkKept(dice, from, kept) == [dice[0].(kept := from in kept)] + rest;
      forall i | 0 < i < |dice| ensures MarkKept(dice, from, kept)[i] == dice[i].(kept := from + i in kept) {
        assert rest[i - 1] == dice[1..][i - 1].(kept := from + 1 + (i - 1) in kept);
      }
    }
  }

  lemma TermIsRolled(term: Term, o: Oracle, t: Tally)
    requires EvalTerm(term, o, t).Done?
    ensures var after := EvalTerm(term, o, t).tally.terms;
            after != [] && after[..|after| - 1] == t.terms && SameTerm(term, after[|after| - 1])
  {
    if term.Dice? {
      var dice := RollDice(DieAt(o, term.sides, term.mods), |t.log|, term.count);
      MarkKeeps(dice, 0, KeptOf(dice, term.mods.keep));
    }
  }

  /** `after` is `before` and then what each term was rolled as. */
  ghost predicate Extends(terms: seq<Term>, before: seq<RolledTerm>, after: seq<RolledTerm>) {
    && |after| == |before| + |terms| && after[..|before|] == before
    && forall i :: 0 <= i < |terms| ==> SameTerm(terms[i], after[|before| + i])
  }

  lemma ExtendsMore(terms: seq<Term>, before: seq<RolledTerm>, next: seq<RolledTerm>, after: seq<RolledTerm>)
    requires terms != [] && next != [] && next[..|next| - 1] == before && SameTerm(terms[0], next[|next| - 1])
    requires Extends(terms[1..], next, after)
    ensures Extends(terms, before, after)
  {
    hide SameTerm;
    assert after[..|before|] == after[..|next|][..|before|];
    assert after[|before|] == after[..|next|][|before|];
    forall i | 0 <= i < |terms| ensures SameTerm(terms[i], after[|before| + i]) {
      if i > 0 { assert terms[i] == terms[1..][i - 1]; }
    }
  }

  lemma {:induction false} TermsExtend(terms: seq<Term>, o: Oracle, t: Tally)
    requires EvalTerms(terms, o, t).Done?
    ensures Extends(terms, t.terms, EvalTerms(terms, o, t).tally.terms)
  {
    if terms == [] {
      assert t.terms[..|t.terms|] == t.terms;
    } else {
      hide SameTerm, EvalTerm, Extends;
      var next := EvalTerm(terms[0], o, t).tally;
      TermIsRolled(terms[0], o, t);
      TermsExtend(terms[1..], o, next);
      ExtendsMore(terms, t.terms, next.terms, EvalTerms(terms, o, t).tally.terms);
    }
  }

  /** The result lists the terms in the order they were written. */
  lemma TermsAreRolled(terms: seq<Term>, o: Oracle, t: Tally)
    requires EvalTerms(terms, o, t).Done?
    ensures var after := EvalTerms(terms, o, t).tally.terms;
            && |after| == |t.terms| + |terms| && after[..|t.terms|] == t.terms
            && forall i :: 0 <= i < |terms| ==> SameTerm(terms[i], after[|t.terms| + i])
  {
    hide SameTerm, EvalTerms;
    TermsExtend(terms, o, t);
  }

  ghost predicate OnlyPool(terms: seq<RolledTerm>, i: nat) {
    i < |terms| && terms[i].RolledDice? && forall j :: 0 <= j < |terms| && terms[j].RolledDice? ==> j == i
  }

  lemma {:induction false} NoPools(terms: seq<RolledTerm>)
    ensures DiceTerms(terms) == [] <==> forall j :: 0 <= j < |terms| ==> !terms[j].RolledDice?
  {
    if terms != [] {
      NoPools(terms[1..]);
      assert forall j :: 1 <= j < |terms| ==> terms[j] == terms[1..][j - 1];
      if terms[0].RolledDice? { assert DiceTerms(terms) != []; }
    }
  }

  lemma {:induction false} OnePool(terms: seq<RolledTerm>) returns (i: nat)
    ensures |DiceTerms(terms)| == 1 ==> OnlyPool(terms, i) && DiceTerms(terms)[0] == terms[i]
    ensures |DiceTerms(terms)| != 1 ==> forall k: nat :: !OnlyPool(terms, k)
  {
    i := 0;
    if terms != [] {
      NoPools(terms[1..]);
      assert forall j :: 1 <= j < |terms| ==> terms[j] == terms[1..][j - 1];
      if !terms[0].RolledDice? {
        i := OnePool(terms[1..]);
        forall k: nat ensures OnlyPool(terms, k) <==> k > 0 && OnlyPool(terms[1..], k - 1) {
          if OnlyPool(terms, k) { assert terms[1..][k - 1] == terms[k]; }
        }
        i := i + 1;
      }
    }
  }

  /** The one dice term of the expression is of twenty sides. */
  ghost predicate OneD20(terms: seq<Term>, i: nat) {
    && i < |terms| && terms[i].Dice? && terms[i].sides == 20
    && forall j :: 0 <= j < |terms| && terms[j].Dice? ==> j == i
  }

  lemma PoolsMatch(terms: seq<Term>, rolled: seq<RolledTerm>, i: nat)
    requires |rolled| == |terms| && forall j :: 0 <= j < |terms| ==> SameTerm(terms[j], rolled[j])
    ensures OneD20(terms, i) <==> OnlyPool(rolled, i) && rolled[i].sides == 20
  {
    if OneD20(terms, i) {
      assert SameTerm(terms[i], rolled[i]);
    }
    forall j | 0 <= j < |terms| ensures terms[j].Dice? <==> rolled[j].RolledDice? {
      assert SameTerm(terms[j], rolled[j]);
    }
  }

  lemma FlagsExactly(t: Tally)
    ensures Finish(t).natural20 <==>
              exists i: nat :: OnlyPool(t.terms, i) && t.terms[i].sides == 20 &&
                                   NoBonus(t.terms[i].dice) && t.rolls == [20]
    ensures Finish(t).natural1 <==>
              exists i: nat :: OnlyPool(t.terms, i) && t.terms[i].sides == 20 &&
                                   NoBonus(t.terms[i].dice) && t.rolls == [1]
  {
    var i := OnePool(t.terms);
    NoPools(t.terms);
    assert forall k: nat :: OnlyPool(t.terms, k) && OnlyPool(t.terms, i) ==> k == i;
  }

  /** A roll is a natural 20 if and only if the expression has one dice term, of twenty sides, no die of it
      exploded, and its only value is 20; a natural 1 likewise. */
  lemma NaturalExactlyWhen(expression: string, o: Oracle)
    requires Evaluate(expression, o).Ok?
    ensures var (terms, roll) := (Parse(expression).value, Evaluate(expression, o).value);
            && |roll.terms| == |terms|
            && (roll.natural20 <==> exists i: nat ::
                  OneD20(terms, i) && roll.rolls == [20] && roll.terms[i].RolledDice?
                  && forall k :: 0 <= k < |roll.terms[i].dice| ==> roll.terms[i].dice[k].explodedTo == [])
            && (roll.natural1 <==> exists i: nat ::
                  OneD20(terms, i) && roll.rolls == [1] && roll.terms[i].RolledDice?
                  && forall k :: 0 <= k < |roll.terms[i].dice| ==> roll.terms[i].dice[k].explodedTo == [])
  {
    hide Parse, EvalTerms, Finish;
    var terms := Parse(expression).value;
    var t := EvalTerms(terms, o, Start).tally;
    TermsAreRolled(terms, o, Start);
    FlagsExactly(t);
    ReportedAsTallied(t);
    forall i: nat ensures OneD20(terms, i) <==> OnlyPool(t.terms, i) && t.terms[i].sides == 20 {
      PoolsMatch(terms, t.terms, i);
    }
    assert forall i: nat :: OnlyPool(t.terms, i) ==> t.terms[i].RolledDice?;
  }

  lemma ReportedAsTallied(t: Tally)
    ensures Finish(t).terms == t.terms
    ensures (exists i :: 0 <= i < |t.terms| && t.terms[i].RolledDice?) ==> Finish(t).rolls == t.rolls
  {
    NoPools(t.terms);
  }

  // ---------------------------------------------------------------- what validation leaves open

  ghost predicate Fits(term: Term) {
    term.Dice? ==>
      && (term.mods.keep.Some? ==> 1 <= term.mods.keep.value.n <= term.count)
      && (term.mods.reroll.Some? ==> 1 <= term.mods.reroll.value.threshold <= term.sides)
  }

  ghost predicate AllFit(terms: seq<Term>) {
    forall i :: 0 <= i < |terms| ==> Fits(terms[i])
  }

  /** The form's validation only parses. A parsed expression rolls only if every keep count fits its
      pool and every threshold its die; when they all do, only the cap on dice can stop the roll. */
  lemma {:induction false} ValidationIsNotEnough(terms: seq<Term>, o: Oracle, t: Tally)
    requires AllInRange(terms)
    ensures EvalTerms(terms, o, t).Done? ==> AllFit(terms)
    ensures AllFit(terms) && EvalTerms(terms, o, t).Failed? ==> EvalTerms(terms, o, t).error == TooManyDice
  {
    if terms != [] {
      assert AllFit(terms) <==> Fits(terms[0]) && AllFit(terms[1..]) by {
        assert forall i :: 1 <= i < |terms| ==> terms[i] == terms[1..][i - 1];
      }
      if EvalTerm(terms[0], o, t).Done? {
        ValidationIsNotEnough(terms[1..], o, EvalTerm(terms[0], o, t).tally);
      }
    }
  }

  /** Keeping three of two dice passes validation and never rolls. */
  lemma KeepThreeOfTwo(o: Oracle)
    ensures var terms := [Dice(Plus, 2, 6, Mods(Some(Keep(true, 3)), None, false))];
            Parse(Print(terms)) == Ok(terms) && Evaluate(Print(terms), o) == Err(KeepOutOfDice)
  {
    var terms := [Dice(Plus, 2, 6, Mods(Some(Keep(true, 3)), None, false))];
    ParsePrint(terms);
    assert EvalTerm(terms[0], o, Start) == Failed(KeepOutOfDice, 0);
  }
}
