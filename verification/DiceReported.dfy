/** What a reported roll says of each die (client/src/api/dice_notation.ts): every die follows the rules of its term,
    and the dice show the source's answers in the order they were given. */
module DiceReported {
  import opened Text
  import opened DiceGrammar
  import opened KeepSelection
  import opened DiceRolls

  // ---------------------------------------------------------------- one die

  ghost predicate Meets(reroll: Reroll, value: nat) {
    || (reroll.comparator == Below && value < reroll.threshold)
    || (reroll.comparator == Above && reroll.threshold < value)
  }

  /** Each bonus die but the last shows the highest face, and so does the last after ten. */
  ghost predicate Chain(bonus: seq<nat>, sides: nat) {
    && |bonus| <= 10
    && (forall k :: 0 <= k < |bonus| - 1 ==> bonus[k] == sides)
    && (bonus != [] && bonus[|bonus| - 1] == sides ==> |bonus| == 10)
  }

  /** A die was rerolled once exactly when its first value met the condition; it stands at the second value then,
      whatever that is; and it has bonus dice exactly when it may explode and stands at the highest face. */
  ghost predicate Ruled(die: RolledDie, sides: nat, mods: Mods) {
    && (match die.rerolledFrom
        case Some(first) => mods.reroll.Some? && Meets(mods.reroll.value, first)
        case None => mods.reroll.Some? ==> !Meets(mods.reroll.value, die.value))
    && (die.explodedTo != [] <==> mods.explode && die.value == sides)
    && Chain(die.explodedTo, sides)
  }

  lemma {:induction false} ExplosionsChain(o: Oracle, at: nat, sides: nat, current: nat, left: nat)
    ensures var bonus := Explosions(o, at, sides, current, left);
            && |bonus| <= left
            && (forall k :: 0 <= k < |bonus| - 1 ==> bonus[k] == sides)
            && (bonus != [] && bonus[|bonus| - 1] == sides ==> |bonus| == left)
            && (bonus != [] <==> current == sides && left > 0)
    decreases left
  {
    if current == sides && left > 0 { ExplosionsChain(o, at + 1, sides, o(at, sides), left - 1); }
  }

  lemma DieIsRuled(o: Oracle, at: nat, sides: nat, mods: Mods)
    ensures Ruled(RollDie(o, at, sides, mods), sides, mods)
  {
    var die := RollDie(o, at, sides, mods);
    ExplosionsChain(o, if die.rerolledFrom.Some? then at + 2 else at + 1, sides, die.value, MAX_EXPLOSIONS_PER_DIE);
  }

  lemma {:induction false} DiceAreRuled(o: Oracle, at: nat, sides: nat, mods: Mods, n: nat)
    ensures forall i :: 0 <= i < n ==> Ruled(RollDice(DieAt(o, sides, mods), at, n)[i], sides, mods)
    decreases n
  {
    hide Ruled, RollDie;
    if n > 0 {
      DieIsRuled(o, at, sides, mods);
      DiceAreRuled(o, at + DieDraws(RollDie(o, at, sides, mods)), sides, mods, n - 1);
    }
  }

  // ---------------------------------------------------------------- one pool

  /** Die i is kept before die j: the better value, or the same at a lower place. */
  ghost predicate Better(dice: seq<RolledDie>, highest: bool, i: nat, j: nat)
    requires i < |dice| && j < |dice|
  {
    var (a, b) := (dice[i].value, dice[j].value);
    (if highest then b < a else a < b) || (a == b && i < j)
  }

  ghost function KeptPlaces(dice: seq<RolledDie>): set<nat> {
    set i: nat | i < |dice| && dice[i].kept
  }

  /** As many dice as asked for, each by the rules; all are kept, or as many as the suffix says and those the best. */
  ghost predicate RuledPool(term: Term, dice: seq<RolledDie>)
    requires term.Dice?
  {
    && |dice| == term.count
    && (forall i :: 0 <= i < |dice| ==> Ruled(dice[i], term.sides, term.mods))
    && match term.mods.keep
       case None => forall i :: 0 <= i < |dice| ==> dice[i].kept
       case Some(keep) =>
         && |KeptPlaces(dice)| == keep.n
         && forall i: nat, j: nat :: i < |dice| && j < |dice| && dice[i].kept && !dice[j].kept ==>
              Better(dice, keep.highest, i, j)
  }

  lemma PoolIsRuled(term: Term, o: Oracle, at: nat)
    requires term.Dice? && KeepFits(term.mods, term.count)
    ensures var dice := RollDice(DieAt(o, term.sides, term.mods), at, term.count);
            RuledPool(term, MarkKept(dice, 0, KeptOf(dice, term.mods.keep)))
  {
    hide Ruled, RollDice, Kept, MarkKept, KeptPlaces, Better;
    var dice := RollDice(DieAt(o, term.sides, term.mods), at, term.count);
    var kept := KeptOf(dice, term.mods.keep);
    var marked := MarkKept(dice, 0, kept);
    MarkKeeps(dice, 0, kept);
    DiceAreRuled(o, at, term.sides, term.mods, term.count);
    forall i | 0 <= i < |marked| ensures Ruled(marked[i], term.sides, term.mods) {
      MarkIsRuled(dice[i], i in kept, term.sides, term.mods);
    }
    if term.mods.keep.Some? {
      KeptAreBest(dice, marked, term.mods.keep.value);
    }
  }

  lemma MarkIsRuled(die: RolledDie, kept: bool, sides: nat, mods: Mods)
    requires Ruled(die, sides, mods)
    ensures Ruled(die.(kept := kept), sides, mods)
  {
  }

  lemma KeptAreBest(dice: seq<RolledDie>, marked: seq<RolledDie>, keep: Keep)
    requires keep.n <= |dice| && |marked| == |dice|
    requires forall i :: 0 <= i < |dice| ==> marked[i] == dice[i].(kept := i in KeptOf(dice, Some(keep)))
    ensures |KeptPlaces(marked)| == keep.n
    ensures forall i: nat, j: nat :: i < |marked| && j < |marked| && marked[i].kept && !marked[j].kept ==>
              Better(marked, keep.highest, i, j)
  {
    var kept := KeptOf(dice, Some(keep));
    KeptLeads(Values(dice), keep.highest, keep.n);
    assert KeptPlaces(marked) == kept;
    forall i: nat, j: nat | i < |marked| && j < |marked| && marked[i].kept && !marked[j].kept
      ensures Better(marked, keep.highest, i, j)
    {
      assert Before(Values(dice), keep.highest, i, j);
    }
  }

  // ---------------------------------------------------------------- the whole expression

  /** The terms in order: a constant with its sign, a pool by the rules of its term. */
  ghost predicate RuledTerm(term: Term, rolled: RolledTerm) {
    match term
    case Constant(sign, amount) => rolled == RolledConstant(if sign == Minus then -(amount as int) else amount as int)
    case Dice(_, _, sides, _) => rolled.RolledDice? && rolled.sides == sides && RuledPool(term, rolled.dice)
  }

  /** How many values the terms show. */
  ghost function Shows(terms: seq<RolledTerm>): nat {
    if terms == [] then 0
    else
      var last := terms[|terms| - 1];
      Shows(terms[..|terms| - 1]) + if last.RolledDice? then |PoolValues(last.dice)| else 0
  }

  /** Read pool by pool and die by die, each as discarded, standing and bonus values, the terms show the source's
      answers one after the other. */
  ghost predicate Answered(terms: seq<RolledTerm>, o: Oracle) {
    terms == [] ||
    (&& Answered(terms[..|terms| - 1], o)
     && var (before, last) := (Shows(terms[..|terms| - 1]), terms[|terms| - 1]);
        last.RolledDice? ==>
          forall k: nat :: k < |PoolValues(last.dice)| ==> PoolValues(last.dice)[k] == o(before + k, last.sides))
  }

  lemma {:induction false} MarkedValuesStay(dice: seq<RolledDie>, from: nat, kept: set<nat>)
    ensures PoolValues(MarkKept(dice, from, kept)) == PoolValues(dice)
  {
    if dice != [] {
      MarkedValuesStay(dice[1..], from + 1, kept);
      assert DieValues(dice[0].(kept := from in kept)) == DieValues(dice[0]);
    }
  }

  lemma PoolIsAnswered(o: Oracle, at: nat, sides: nat, mods: Mods, n: nat)
    ensures var dice := RollDice(DieAt(o, sides, mods), at, n);
            && |PoolValues(dice)| == Draws(dice)
            && forall k: nat :: k < |PoolValues(dice)| ==> PoolValues(dice)[k] == o(at + k, sides)
  {
    hide RollDie;
    forall k: nat ensures DrawsItsValues(o, sides, k, DieAt(o, sides, mods)(k)) {
      DieDrawsItsValues(o, k, sides, mods);
    }
    PoolDraws(o, sides, DieAt(o, sides, mods), at, n);
  }

  ghost predicate Told(t: Tally, o: Oracle) {
    && |t.log| == Shows(t.terms) == t.totalRolled <= 2000
    && Answered(t.terms, o)
  }

  /** One pool more, drawn where the tally stopped. */
  lemma PoolTold(t: Tally, after: Tally, o: Oracle, sides: nat, dice: seq<RolledDie>)
    requires Told(t, o) && after.terms == t.terms + [RolledDice(sides, dice)]
    requires after.totalRolled == |after.log| <= 2000
    requires |after.log| == |t.log| + |PoolValues(dice)|
    requires forall k: nat :: k < |PoolValues(dice)| ==> PoolValues(dice)[k] == o(|t.log| + k, sides)
    ensures Told(after, o)
  {
    hide PoolValues;
    assert after.terms[..|t.terms|] == t.terms;
  }

  lemma DiceTermIsTold(term: Term, o: Oracle, t: Tally)
    requires Told(t, o) && term.Dice? && EvalTerm(term, o, t).Done?
    ensures var after := EvalTerm(term, o, t).tally;
            && Told(after, o)
            && after.terms != [] && after.terms[..|after.terms| - 1] == t.terms
            && RuledTerm(term, after.terms[|after.terms| - 1])
  {
    hide RuledPool, Answered, Shows, KeptOf, MarkKept, PoolValues, ValuesWhere, RollDice;
    var after := EvalTerm(term, o, t).tally;
    var dice := RollDice(DieAt(o, term.sides, term.mods), |t.log|, term.count);
    var kept := KeptOf(dice, term.mods.keep);
    var marked := MarkKept(dice, 0, kept);
    PoolIsRuled(term, o, |t.log|);
    PoolIsAnswered(o, |t.log|, term.sides, term.mods, term.count);
    MarkedValuesStay(dice, 0, kept);
    PoolTold(t, after, o, term.sides, marked);
    assert after.terms == t.terms + [RolledDice(term.sides, marked)];
  }

  lemma ConstantIsTold(term: Term, o: Oracle, t: Tally)
    requires Told(t, o) && term.Constant?
    ensures EvalTerm(term, o, t).Done?
    ensures var after := EvalTerm(term, o, t).tally;
            && Told(after, o)
            && after.terms != [] && after.terms[..|after.terms| - 1] == t.terms
            && RuledTerm(term, after.terms[|after.terms| - 1])
  {
    assert EvalTerm(term, o, t).tally.terms[..|t.terms|] == t.terms;
  }

  lemma TermIsTold(term: Term, o: Oracle, t: Tally)
    requires Told(t, o) && EvalTerm(term, o, t).Done?
    ensures var after := EvalTerm(term, o, t).tally;
            && Told(after, o)
            && after.terms != [] && after.terms[..|after.terms| - 1] == t.terms
            && RuledTerm(term, after.terms[|after.terms| - 1])
  {
    hide Told, RuledTerm, EvalTerm;
    if term.Dice? { DiceTermIsTold(term, o, t); } else { ConstantIsTold(term, o, t); }
  }

  /** `after` is `before` and then one entry for each term, by its rules. */
  ghost predicate Extends(terms: seq<Term>, before: seq<RolledTerm>, after: seq<RolledTerm>) {
    && |after| == |before| + |terms| && after[..|before|] == before
    && forall i :: 0 <= i < |terms| ==> RuledTerm(terms[i], after[|before| + i])
  }

  lemma ExtendsMore(terms: seq<Term>, before: seq<RolledTerm>, next: seq<RolledTerm>, after: seq<RolledTerm>)
    requires terms != [] && next != [] && next[..|next| - 1] == before && RuledTerm(terms[0], next[|next| - 1])
    requires Extends(terms[1..], next, after)
    ensures Extends(terms, before, after)
  {
    hide RuledTerm;
    assert after[..|before|] == after[..|next|][..|before|];
    assert after[|before|] == after[..|next|][|before|];
    forall i | 0 <= i < |terms| ensures RuledTerm(terms[i], after[|before| + i]) {
      if i > 0 { assert terms[i] == terms[1..][i - 1]; }
    }
  }

  lemma {:induction false} TermsAreTold(terms: seq<Term>, o: Oracle, t: Tally)
    requires Told(t, o) && EvalTerms(terms, o, t).Done?
    ensures Told(EvalTerms(terms, o, t).tally, o) && Extends(terms, t.terms, EvalTerms(terms, o, t).tally.terms)
  {
    if terms == [] {
      assert t.terms[..|t.terms|] == t.terms;
    } else {
      hide Told, RuledTerm, EvalTerm, Extends;
      var next := EvalTerm(terms[0], o, t).tally;
      TermIsTold(terms[0], o, t);
      TermsAreTold(terms[1..], o, next);
      ExtendsMore(terms, t.terms, next.terms, EvalTerms(terms, o, t).tally.terms);
    }
  }

  /** Every roll reports its terms in order, each die by the rules of its term, with the source's first answers, at
      most 2000, in the order they were given. */
  lemma ReportedAsRuled(expression: string, o: Oracle)
    requires Evaluate(expression, o).Ok?
    ensures var (terms, rolled) := (Parse(expression).value, Evaluate(expression, o).value.terms);
            && |rolled| == |terms|
            && (forall i :: 0 <= i < |terms| ==> RuledTerm(terms[i], rolled[i]))
            && Answered(rolled, o) && Shows(rolled) <= 2000
  {
    hide RuledTerm, Finish;
    var terms := Parse(expression).value;
    TermsAreTold(terms, o, Start);
    ReportedAsTallied(EvalTerms(terms, o, Start).tally);
  }
}
