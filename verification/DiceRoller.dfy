/** The evaluator's loops and the seeded die source (client/src/api/dice_notation.ts), proved
    against DiceRolls. */
module DiceRoller {
  import opened Text
  import opened DiceGrammar
  import opened DiceParser
  import opened KeepSelection
  import opened DiceRolls

  // ---------------------------------------------------------------- the seeded die source

  const GOLDEN: bv32 := 0x9e37_79b9
  const STEP: bv32 := 0x6d2b_79f5

  function InitialState(seed: bv32): bv32 {
    if seed == 0 then GOLDEN else seed
  }

  /** The mulberry32 output for a state. */
  function Mix(state: bv32): bv32 {
    var t := (state ^ (state >> 15)) * (state | 1);
    var u := t ^ (t + (t ^ (t >> 7)) * (t | 61));
    u ^ (u >> 14)
  }

  function StateAfter(seed: bv32, draws: nat): bv32 {
    if draws == 0 then InitialState(seed) else StateAfter(seed, draws - 1) + STEP
  }

  /** Scales a 32-bit word to a die: the quotient is exact in a double, so flooring it is integer division. */
  function Face(word: bv32, sides: nat): nat {
    (word as nat) * sides / 0x1_0000_0000 + 1
  }

  /** A seeded source as an oracle: the n-th draw depends on the seed, n and the die only. */
  function Seeded(seed: bv32): Oracle {
    (n: nat, sides: nat) => Face(Mix(StateAfter(seed, n + 1)), sides)
  }

  lemma FaceIsOnTheDie(word: bv32, sides: nat)
    requires sides >= 1
    ensures 1 <= Face(word, sides) <= sides
  {
    ScaleBelow(word as nat, sides);
  }

  /** Every value lies on the die. */
  lemma SeededIsOnTheDie(seed: bv32, n: nat, sides: nat)
    requires sides >= 1
    ensures 1 <= Seeded(seed)(n, sides) <= sides
  {
    FaceIsOnTheDie(Mix(StateAfter(seed, n + 1)), sides);
  }

  lemma StateStep(seed: bv32, n: nat)
    ensures StateAfter(seed, 0) == InitialState(seed) && StateAfter(seed, n + 1) == StateAfter(seed, n) + STEP
  {
  }

  /** What three seeds give: the first faces of a d20 for 42, of a d100 for 1, and of a d6 for 0, whose state is
      replaced. */
  lemma ForFortyTwo()
    ensures Seeded(42)(0, 20) == 13 && Seeded(42)(1, 20) == 9 && Seeded(42)(2, 20) == 18 && Seeded(42)(3, 20) == 14
  {
    hide StateAfter;
    StateStep(42, 0);
    assert StateAfter(42, 1) == 0x6d2b_7a1f && Mix(0x6d2b_7a1f) == 0x99e1_ef7c;
    StateStep(42, 1);
    assert StateAfter(42, 2) == 0xda56_f414 && Mix(0xda56_f414) == 0x72c3_2b8a;
    StateStep(42, 2);
    assert StateAfter(42, 3) == 0x4782_6e09 && Mix(0x4782_6e09) == 0xda3b_32c0;
    StateStep(42, 3);
    assert StateAfter(42, 4) == 0xb4ad_e7fe && Mix(0xb4ad_e7fe) == 0xab73_b0ad;
  }

  lemma ForOne()
    ensures Seeded(1)(0, 100) == 63 && Seeded(1)(1, 100) == 1 && Seeded(1)(2, 100) == 53
  {
    hide StateAfter;
    StateStep(1, 0);
    assert StateAfter(1, 1) == 0x6d2b_79f6 && Mix(0x6d2b_79f6) == 0xa087_eaf3;
    StateStep(1, 1);
    assert StateAfter(1, 2) == 0xda56_f3eb && Mix(0xda56_f3eb) == 0x00b3_49c9;
    StateStep(1, 2);
    assert StateAfter(1, 3) == 0x4782_6de0 && Mix(0x4782_6de0) == 0x8706_c4eb;
  }

  lemma ForZero()
    ensures Seeded(0)(0, 6) == 3 && Seeded(0)(1, 6) == 1 && Seeded(0)(2, 6) == 5 && Seeded(0)(3, 6) == 6
  {
    hide StateAfter;
    StateStep(0, 0);
    assert StateAfter(0, 1) == 0x0b62_f3ae && Mix(0x0b62_f3ae) == 0x5be0_36b8;
    StateStep(0, 1);
    assert StateAfter(0, 2) == 0x788e_6da3 && Mix(0x788e_6da3) == 0x1b1c_79e4;
    StateStep(0, 2);
    assert StateAfter(0, 3) == 0xe5b9_e798 && Mix(0xe5b9_e798) == 0xacdf_d63c;
    StateStep(0, 3);
    assert StateAfter(0, 4) == 0x52e5_618d && Mix(0x52e5_618d) == 0xeafd_c25e;
  }

  lemma ScaleBelow(word: nat, sides: nat)
    requires word < 0x1_0000_0000 && sides >= 1
    ensures word * sides / 0x1_0000_0000 < sides
  {
    assert word * sides <= (0x1_0000_0000 - 1) * sides;
  }

  /** The closure made by `makeSeededRng`. */
  class SeededRng {
    const seed: bv32
    var state: bv32
    ghost var drawn: nat

    ghost predicate Valid()
      reads this
    {
      state == StateAfter(seed, drawn)
    }

    constructor (seed: bv32)
      ensures Valid() && this.seed == seed && drawn == 0
    {
      this.seed := seed;
      state := InitialState(seed);
      drawn := 0;
    }

    method Next(sides: nat) returns (value: nat)
      requires Valid()
      modifies this
      ensures Valid() && drawn == old(drawn) + 1
      ensures value == Seeded(seed)(old(drawn), sides)
    {
      state := state + STEP;
      value := Face(Mix(state), sides);
      drawn := drawn + 1;
    }
  }

  /** Any die source: what it answers may depend on how often it was asked and for which die. */
  class Rng {
    const answers: Oracle
    var drawn: nat

    constructor (answers: Oracle)
      ensures this.answers == answers && drawn == 0
    {
      this.answers, drawn := answers, 0;
    }

    method Draw(sides: nat) returns (value: nat)
      modifies this
      ensures value == answers(old(drawn), sides) && drawn == old(drawn) + 1
    {
      value := answers(drawn, sides);
      drawn := drawn + 1;
    }
  }

  // ---------------------------------------------------------------- one die, one pool

  /** The body of the per-die loop; the threshold is only looked at after the first draw. */
  method RollOneDie(rng: Rng, sides: nat, mods: Mods) returns (r: Result<RolledDie, RollError>)
    modifies rng
    ensures !ThresholdFits(mods, sides) ==>
              r == Err(ThresholdOutOfDie) && rng.drawn == old(rng.drawn) + 1
    ensures ThresholdFits(mods, sides) ==>
              r == Ok(DieAt(rng.answers, sides, mods)(old(rng.drawn))) &&
                  rng.drawn == old(rng.drawn) + DieDraws(r.value)
  {
    var value := rng.Draw(sides);
    var rerolledFrom: Option<nat> := None;
    if mods.reroll.Some? {
      if mods.reroll.value.threshold < 1 || mods.reroll.value.threshold > sides {
        return Err(ThresholdOutOfDie);
      }
      if Rerolls(mods.reroll.value, value) {
        rerolledFrom := Some(value);
        value := rng.Draw(sides);
      }
    }
    var explodedTo := [];
    if mods.explode {
      explodedTo := Explode(rng, sides, value);
    }
    assert DieAt(rng.answers, sides, mods)(old(rng.drawn)) == RollDie(rng.answers, old(rng.drawn), sides, mods);
    return Ok(RolledDie(value, true, rerolledFrom, explodedTo));
  }

  /** The chain of bonus rolls of one die. */
  method Explode(rng: Rng, sides: nat, value: nat) returns (explodedTo: seq<nat>)
    modifies rng
    ensures explodedTo == Explosions(rng.answers, old(rng.drawn), sides, value, MAX_EXPLOSIONS_PER_DIE)
    ensures rng.drawn == old(rng.drawn) + |explodedTo|
  {
    explodedTo := [];
    var current := value;
    ghost var o, start := rng.answers, rng.drawn;
    while current == sides && |explodedTo| < MAX_EXPLOSIONS_PER_DIE
      invariant |explodedTo| <= MAX_EXPLOSIONS_PER_DIE && rng.drawn == start + |explodedTo|
      invariant explodedTo == Explosions(o, start, sides, value, |explodedTo|)
      invariant current == if explodedTo == [] then value else explodedTo[|explodedTo| - 1]
      decreases MAX_EXPLOSIONS_PER_DIE - |explodedTo|
    {
      NextBonus(o, start, sides, value, |explodedTo|);
      current := rng.Draw(sides);
      explodedTo := explodedTo + [current];
    }
    if current != sides {
      LastBonus(o, start, sides, value, |explodedTo|);
    }
  }

  /** A full chain that ends on the top face goes on. */
  lemma {:induction false} NextBonus(o: Oracle, at: nat, sides: nat, value: nat, n: nat)
    requires var chain := Explosions(o, at, sides, value, n);
             |chain| == n && sides == if n == 0 then value else chain[n - 1]
    ensures Explosions(o, at, sides, value, n + 1) == Explosions(o, at, sides, value, n) + [o(at + n, sides)]
    decreases n
  {
    if n > 0 {
      NextBonus(o, at + 1, sides, o(at, sides), n - 1);
    }
  }

  /** A chain ends at the first other face, or after ten rolls. */
  lemma {:induction false} LastBonus(o: Oracle, at: nat, sides: nat, value: nat, n: nat)
    requires var chain := Explosions(o, at, sides, value, n);
             |chain| == n && (sides != if n == 0 then value else chain[n - 1])
    ensures forall m: nat :: m >= n ==> Explosions(o, at, sides, value, m) == Explosions(o, at, sides, value, n)
    decreases n
  {
    if n > 0 {
      LastBonus(o, at + 1, sides, o(at, sides), n - 1);
    }
  }

  method RollPool(rng: Rng, count: nat, sides: nat, mods: Mods) returns (r: Result<seq<RolledDie>, RollError>)
    modifies rng
    ensures count > 0 && !ThresholdFits(mods, sides) ==> r == Err(ThresholdOutOfDie) && rng.drawn == old(rng.drawn) + 1
    ensures count == 0 || ThresholdFits(mods, sides) ==>
              r == Ok(RollDice(DieAt(rng.answers, sides, mods), old(rng.drawn), count)) &&
                  rng.drawn == old(rng.drawn) + Draws(r.value)
  {
    var dice: seq<RolledDie> := [];
    ghost var start, roll := rng.drawn, DieAt(rng.answers, sides, mods);
    var i := 0;
    while i < count
      invariant i <= count && rng.drawn == start + Draws(dice)
      invariant i > 0 ==> ThresholdFits(mods, sides)
      invariant dice == RollDice(roll, start, i)
    {
      NextDie(roll, start, i);
      var attempt := RollOneDie(rng, sides, mods);
      if attempt.Err? { return Err(attempt.error); }
      DrawsAppend(dice, attempt.value);
      dice := dice + [attempt.value];
      i := i + 1;
    }
    return Ok(dice);
  }

  /** A longer pool starts like a shorter one. */
  lemma {:induction false} NextDie(roll: nat -> RolledDie, at: nat, n: nat)
    ensures var dice := RollDice(roll, at, n);
            RollDice(roll, at, n + 1) == dice + [roll(at + Draws(dice))]
    decreases n
  {
    if n > 0 {
      NextDie(roll, at + DieDraws(roll(at)), n - 1);
    }
  }

  lemma {:induction false} DrawsAppend(dice: seq<RolledDie>, die: RolledDie)
    ensures Draws(dice + [die]) == Draws(dice) + DieDraws(die)
  {
    if dice == [] {
      assert dice + [die] == [die];
    } else {
      assert (dice + [die])[1..] == dice[1..] + [die];
      DrawsAppend(dice[1..], die);
    }
  }

  // ---------------------------------------------------------------- keeping

  /** Fills the keep set from the sorted indices; without a keep suffix every die counts as kept. */
  method SelectKept(dice: seq<RolledDie>, keep: Option<Keep>) returns (kept: set<nat>)
    requires keep.Some? ==> keep.value.n <= |dice|
    ensures kept == KeptOf(dice, keep)
  {
    if keep.None? { return FirstIndices(|dice|); }
    var order := Order(Values(dice), keep.value.highest, |dice|);
    kept := {};
    var i := 0;
    while i < keep.value.n
      invariant i <= keep.value.n && kept == Kept(Values(dice), keep.value.highest, i)
    {
      KeptNext(Values(dice), keep.value.highest, i);
      kept := kept + {order[i]};
      i := i + 1;
    }
  }

  lemma KeptNext(values: seq<nat>, highest: bool, n: nat)
    requires n < |values|
    ensures Kept(values, highest, n + 1) == Kept(values, highest, n) + {Order(values, highest, |values|)[n]}
  {
  }

  /** The loop that splits a pool into kept and dropped values and marks the dice. */
  method Divide(dice: seq<RolledDie>, kept: set<nat>)
    returns (marked: seq<RolledDie>, standing: seq<int>, out: seq<int>)
    ensures marked == MarkKept(dice, 0, kept)
    ensures standing == ValuesWhere(dice, 0, kept, true) && out == ValuesWhere(dice, 0, kept, false)
  {
    marked, standing, out := [], [], [];
    var i := 0;
    ghost var allMarked, allIn, allOut := MarkKept(dice, 0, kept), ValuesWhere(dice, 0, kept, true),
        ValuesWhere(dice, 0, kept, false);
    assert dice[0..] == dice;
    while i < |dice|
      invariant i <= |dice|
      invariant allMarked == marked + MarkKept(dice[i..], i, kept)
      invariant allIn == standing + ValuesWhere(dice[i..], i, kept, true)
      invariant allOut == out + ValuesWhere(dice[i..], i, kept, false)
    {
      assert dice[i..][1..] == dice[i + 1..];
      if i in kept {
        standing := standing + [dice[i].value as int];
      } else {
        out := out + [dice[i].value as int];
      }
      marked := marked + [dice[i].(kept := i in kept)];
      i := i + 1;
    }
  }

  /** Explosion extras of every die, in die order. */
  method CollectBonus(dice: seq<RolledDie>) returns (bonus: seq<int>)
    ensures bonus == BonusValues(dice)
  {
    bonus := [];
    var i := 0;
    ghost var all := BonusValues(dice);
    assert dice[0..] == dice;
    while i < |dice|
      invariant i <= |dice| && all == bonus + BonusValues(dice[i..])
    {
      assert dice[i..][1..] == dice[i + 1..];
      bonus := bonus + AsInts(dice[i].explodedTo);
      i := i + 1;
    }
  }

  method CollectRerolled(dice: seq<RolledDie>) returns (rerolled: seq<int>)
    ensures rerolled == RerolledValues(dice)
  {
    rerolled := [];
    var i := 0;
    ghost var all := RerolledValues(dice);
    assert dice[0..] == dice;
    while i < |dice|
      invariant i <= |dice| && all == rerolled + RerolledValues(dice[i..])
    {
      assert dice[i..][1..] == dice[i + 1..];
      rerolled := rerolled + RerolledFrom(dice[i]);
      i := i + 1;
    }
  }

  // ---------------------------------------------------------------- the whole roll

  /** One turn of the loop over terms; `log` keeps what the source drew. */
  method EvaluateTerm(term: Term, rng: Rng, t: Tally) returns (r: Result<Tally, RollError>)
    requires rng.drawn == |t.log|
    modifies rng
    ensures match EvalTerm(term, rng.answers, t)
            case Failed(e, drawn) => r == Err(e) && rng.drawn == drawn
            case Done(t') => r == Ok(t') && rng.drawn == |t'.log|
  {
    match term
    case Constant(sign, amount) =>
      return Ok(t.(terms := t.terms + [RolledConstant(Signed(sign, amount))],
                   modifier := t.modifier + Signed(sign, amount)));
    case Dice(_, count, sides, mods) =>
      if t.totalRolled + count > MAX_DICE_PER_EXPRESSION { return Err(TooManyDice); }
      if mods.keep.Some? && (mods.keep.value.n == 0 || mods.keep.value.n > count) { return Err(KeepOutOfDice); }
      var dice :- RollPool(rng, count, sides, mods);
      if t.totalRolled + Draws(dice) > MAX_DICE_PER_EXPRESSION { return Err(TooManyDice); }
      var t' := RecordPool(t, sides, dice, mods.keep, Answers(rng.answers, |t.log|, Draws(dice), sides));
      return Ok(t');
  }

  method RecordPool(t: Tally, sides: nat, dice: seq<RolledDie>, keep: Option<Keep>, drawn: seq<int>) returns (t': Tally)
    requires keep.Some? ==> keep.value.n <= |dice|
    ensures t' == Record(t, sides, dice, keep, drawn)
  {
    var kept := SelectKept(dice, keep);
    var marked, standing, out := Divide(dice, kept);
    var bonus := CollectBonus(dice);
    var rerolled := CollectRerolled(dice);
    return Tally(t.terms + [RolledDice(sides, marked)], t.rolls + (standing + bonus), t.dropped + rerolled + out,
                 t.modifier, t.totalRolled + Draws(dice), t.log + drawn);
  }

  method EvaluateTerms(terms: seq<Term>, rng: Rng) returns (r: Result<Tally, RollError>)
    requires rng.drawn == 0
    modifies rng
    ensures match EvalTerms(terms, rng.answers, Start)
            case Failed(e, drawn) => r == Err(e) && rng.drawn == drawn
            case Done(t) => r == Ok(t) && rng.drawn == |t.log|
  {
    var t := Start;
    var i := 0;
    ghost var whole := EvalTerms(terms, rng.answers, Start);
    assert terms[0..] == terms;
    while i < |terms|
      invariant i <= |terms| && rng.drawn == |t.log|
      invariant whole == EvalTerms(terms[i..], rng.answers, t)
    {
      assert terms[i..][1..] == terms[i + 1..];
      var next := EvaluateTerm(terms[i], rng, t);
      if next.Err? { return Err(next.error); }
      t := next.value;
      i := i + 1;
    }
    return Ok(t);
  }

  /** A roll, from text to result. */
  method EvaluateDiceExpression(expression: string, rng: Rng) returns (r: Result<Roll, RollError>)
    requires rng.drawn == 0
    modifies rng
    ensures r == Evaluate(expression, rng.answers)
    ensures rng.drawn <= if r.Ok? then MAX_DICE_PER_EXPRESSION else 13000
  {
    var parsed := ParseExpression(expression);
    if parsed.Err? { return Err(BadExpression(parsed.error)); }
    ParseInRange(expression);
    DrawsAreConserved(parsed.value, rng.answers, Start);
    TotalAddsUp(expression, rng.answers);
    var t :- EvaluateTerms(parsed.value, rng);
    return Ok(Finish(t));
  }
}
