/** Which parsed expressions roll whatever the dice show (client/src/api/dice_notation.ts): the most dice
    each term can draw, and a source that draws them all. */
module DiceLimits {
  import opened Text
  import opened DiceGrammar
  import opened DiceRolls

  /** A die source in its documented range. */
  ghost predicate OnDie(o: Oracle) {
    forall n, sides: nat :: sides >= 1 ==> 1 <= o(n, sides) <= sides
  }

  /** Some face of the die is rerolled. */
  predicate CanReroll(mods: Mods, sides: nat) {
    && mods.reroll.Some?
    && if mods.reroll.value.comparator.Below? then mods.reroll.value.threshold >= 2
       else mods.reroll.value.threshold < sides
  }

  /** The most often one die can be rolled. */
  function DieMost(mods: Mods, sides: nat): nat {
    1 + (if CanReroll(mods, sides) then 1 else 0) + (if mods.explode then MAX_EXPLOSIONS_PER_DIE else 0)
  }

  /** The most draws an expression can make. */
  function Most(terms: seq<Term>): nat {
    if terms == [] then 0
    else (if terms[0].Dice? then terms[0].count * DieMost(terms[0].mods, terms[0].sides) else 0) + Most(terms[1..])
  }

  // ---------------------------------------------------------------- never more

  lemma DieAtMost(o: Oracle, at: nat, sides: nat, mods: Mods)
    requires OnDie(o) && sides >= 1
    ensures DieDraws(RollDie(o, at, sides, mods)) <= DieMost(mods, sides)
  {
    var die := RollDie(o, at, sides, mods);
    var next := if die.rerolledFrom.Some? then at + 2 else at + 1;
    StandDraws(o, next, sides, mods.explode, die.value, die.rerolledFrom);
    assert 1 <= o(at, sides) <= sides;
  }

  lemma {:induction false} PoolAtMost(o: Oracle, at: nat, n: nat, sides: nat, mods: Mods)
    requires OnDie(o) && sides >= 1
    ensures Draws(RollDice(DieAt(o, sides, mods), at, n)) <= n * DieMost(mods, sides)
    decreases n
  {
    if n > 0 {
      var die := DieAt(o, sides, mods)(at);
      var rest := RollDice(DieAt(o, sides, mods), at + DieDraws(die), n - 1);
      DieAtMost(o, at, sides, mods);
      PoolAtMost(o, at + DieDraws(die), n - 1, sides, mods);
      assert ([die] + rest)[1..] == rest;
      assert n * DieMost(mods, sides) == DieMost(mods, sides) + (n - 1) * DieMost(mods, sides);
    }
  }

  lemma TimesAtLeast(count: nat, k: nat)
    requires k >= 1
    ensures count * k >= count
  {
  }

  lemma TermFitsTheCap(term: Term, o: Oracle, t: Tally)
    requires OnDie(o) && InRange(term) && Fits(term) && t.totalRolled + Most([term]) <= MAX_DICE_PER_EXPRESSION
    ensures EvalTerm(term, o, t).Done? && EvalTerm(term, o, t).tally.totalRolled <= t.totalRolled + Most([term])
  {
    if term.Dice? {
      PoolAtMost(o, |t.log|, term.count, term.sides, term.mods);
      TimesAtLeast(term.count, DieMost(term.mods, term.sides));
      assert [term][1..] == [];
    }
  }

  lemma {:induction false} FittingAlwaysRolls(terms: seq<Term>, o: Oracle, t: Tally)
    requires OnDie(o) && AllInRange(terms) && AllFit(terms) && t.totalRolled + Most(terms) <= MAX_DICE_PER_EXPRESSION
    ensures EvalTerms(terms, o, t).Done?
  {
    if terms != [] {
      assert [terms[0]][1..] == [];
      TermFitsTheCap(terms[0], o, t);
      assert forall i :: 0 <= i < |terms[1..]| ==> terms[1..][i] == terms[i + 1];
      FittingAlwaysRolls(terms[1..], o, EvalTerm(terms[0], o, t).tally);
    }
  }

  // ---------------------------------------------------------------- as many, if the dice will have it

  /** The costliest faces of a die, true for the lowest and false for the highest. */
  ghost function DieFaces(mods: Mods, sides: nat): (faces: seq<bool>)
    ensures |faces| == DieMost(mods, sides)
  {
    [CanReroll(mods, sides) && mods.reroll.value.comparator.Below?] + seq(DieMost(mods, sides) - 1, _ => false)
  }

  ghost function Repeated(faces: seq<bool>, n: nat): seq<bool>
    decreases n
  {
    if n == 0 then [] else faces + Repeated(faces, n - 1)
  }

  ghost function TermsFaces(terms: seq<Term>): seq<bool> {
    if terms == [] then []
    else if terms[0].Dice?
    then Repeated(DieFaces(terms[0].mods, terms[0].sides), terms[0].count) + TermsFaces(terms[1..])
    else TermsFaces(terms[1..])
  }

  /** From draw `at` on the source shows these faces. */
  ghost predicate Shows(o: Oracle, at: nat, faces: seq<bool>) {
    forall n, sides: nat :: at <= n < at + |faces| ==> o(n, sides) == if faces[n - at] then 1 else sides
  }

  lemma ShowsParts(o: Oracle, at: nat, a: seq<bool>, b: seq<bool>)
    requires Shows(o, at, a + b)
    ensures Shows(o, at, a) && Shows(o, at + |a|, b)
  {
    forall n, sides: nat | at <= n < at + |a| ensures o(n, sides) == if a[n - at] then 1 else sides {
      assert (a + b)[n - at] == a[n - at];
    }
    forall n, sides: nat | at + |a| <= n < at + |a| + |b| ensures o(n, sides) == if b[n - at - |a|] then 1 else sides {
      assert (a + b)[n - at] == b[n - at - |a|];
    }
  }

  lemma {:induction false} FullChain(o: Oracle, at: nat, sides: nat, left: nat)
    requires forall n: nat :: at <= n < at + left ==> o(n, sides) == sides
    ensures |Explosions(o, at, sides, sides, left)| == left
    decreases left
  {
    if left > 0 { FullChain(o, at + 1, sides, left - 1); }
  }

  lemma DieCosts(o: Oracle, at: nat, sides: nat, mods: Mods)
    requires Shows(o, at, DieFaces(mods, sides)) && sides >= 2 && ThresholdFits(mods, sides)
    ensures DieDraws(RollDie(o, at, sides, mods)) == DieMost(mods, sides)
  {
    var most, faces := DieMost(mods, sides), DieFaces(mods, sides);
    assert o(at, sides) == if faces[0] then 1 else sides;
    forall n: nat | at + 1 <= n < at + most ensures o(n, sides) == sides {
      assert !faces[n - at];
    }
    if mods.explode {
      FullChain(o, if CanReroll(mods, sides) then at + 2 else at + 1, sides, MAX_EXPLOSIONS_PER_DIE);
    }
  }

  lemma {:induction false} RepeatedLength(faces: seq<bool>, n: nat)
    ensures |Repeated(faces, n)| == n * |faces|
    decreases n
  {
    if n > 0 {
      RepeatedLength(faces, n - 1);
      assert n * |faces| == |faces| + (n - 1) * |faces|;
    }
  }

  lemma FirstDie(roll: nat -> RolledDie, at: nat, n: nat)
    requires n >= 1
    ensures Draws(RollDice(roll, at, n)) == DieDraws(roll(at)) + Draws(RollDice(roll, at + DieDraws(roll(at)), n - 1))
  {
    var rest := RollDice(roll, at + DieDraws(roll(at)), n - 1);
    assert ([roll(at)] + rest)[1..] == rest;
  }

  lemma {:induction false} PoolCosts(o: Oracle, roll: nat -> RolledDie, at: nat, n: nat, faces: seq<bool>)
    requires forall k: nat :: Shows(o, k, faces) ==> DieDraws(roll(k)) == |faces|
    requires Shows(o, at, Repeated(faces, n))
    ensures Draws(RollDice(roll, at, n)) == |Repeated(faces, n)|
    decreases n
  {
    if n > 0 {
      ShowsParts(o, at, faces, Repeated(faces, n - 1));
      FirstDie(roll, at, n);
      PoolCosts(o, roll, at + |faces|, n - 1, faces);
    }
  }

  lemma DoneCounts(term: Term, o: Oracle, t: Tally)
    requires EvalTerm(term, o, t).Done?
    ensures EvalTerm(term, o, t).tally.totalRolled ==
            t.totalRolled +
            if term.Dice? then Draws(RollDice(DieAt(o, term.sides, term.mods), |t.log|, term.count)) else 0
    ensures term.Dice? ==> (term.count > 0 ==> ThresholdFits(term.mods, term.sides))
  {
  }

  lemma TermFacesNumber(term: Term)
    ensures |TermsFaces([term])| == Most([term])
    ensures TermsFaces([term]) == if term.Dice? then Repeated(DieFaces(term.mods, term.sides), term.count) else []
  {
    assert [term][1..] == [];
    if term.Dice? {
      RepeatedLength(DieFaces(term.mods, term.sides), term.count);
    }
  }

  lemma TermCosts(term: Term, o: Oracle, t: Tally)
    requires InRange(term) && Shows(o, |t.log|, TermsFaces([term])) && EvalTerm(term, o, t).Done?
    ensures EvalTerm(term, o, t).tally.totalRolled == t.totalRolled + Most([term])
  {
    DoneCounts(term, o, t);
    TermFacesNumber(term);
    if term.Dice? {
      forall k: nat | Shows(o, k, DieFaces(term.mods, term.sides))
        ensures DieDraws(DieAt(o, term.sides, term.mods)(k)) == |DieFaces(term.mods, term.sides)|
      {
        DieCosts(o, k, term.sides, term.mods);
      }
      PoolCosts(o, DieAt(o, term.sides, term.mods), |t.log|, term.count, DieFaces(term.mods, term.sides));
    }
  }

  lemma FacesSplit(terms: seq<Term>)
    requires terms != []
    ensures TermsFaces(terms) == TermsFaces([terms[0]]) + TermsFaces(terms[1..])
    ensures Most(terms) == Most([terms[0]]) + Most(terms[1..])
  {
    assert [terms[0]][1..] == [];
    TermFacesNumber(terms[0]);
  }

  /** A term leaves the source where the faces of the next one begin. */
  lemma AfterFirst(term: Term, o: Oracle, t: Tally, later: seq<bool>)
    requires InRange(term) && Conserves(t) && Shows(o, |t.log|, TermsFaces([term]) + later) &&
             EvalTerm(term, o, t).Done?
    ensures var after := EvalTerm(term, o, t).tally;
            Conserves(after) && after.totalRolled == t.totalRolled + Most([term]) && Shows(o, |after.log|, later)
  {
    hide EvalTerm, Shows, TermsFaces, Most;
    ShowsParts(o, |t.log|, TermsFaces([term]), later);
    TermConserves(term, o, t);
    TermCosts(term, o, t);
    TermFacesNumber(term);
  }

  lemma {:induction false} TermsCost(terms: seq<Term>, o: Oracle, t: Tally)
    requires AllInRange(terms) && Conserves(t) && Shows(o, |t.log|, TermsFaces(terms)) && EvalTerms(terms, o, t).Done?
    ensures t.totalRolled + Most(terms) <= MAX_DICE_PER_EXPRESSION
  {
    if terms != [] {
      assert forall i :: 0 <= i < |terms[1..]| ==> terms[1..][i] == terms[i + 1];
      FacesSplit(terms);
      AfterFirst(terms[0], o, t, TermsFaces(terms[1..]));
      TermsCost(terms[1..], o, EvalTerm(terms[0], o, t).tally);
    }
  }

  /** The source that shows a list of faces, and the highest face ever after. */
  ghost function Costliest(faces: seq<bool>): Oracle {
    (n: nat, sides: nat) => if n < |faces| && faces[n] then 1 else sides
  }

  /** A parsed expression rolls whatever its dice show if and only if every keep count and reroll threshold
      fits its pool and the most it can draw is within the cap. */
  lemma RollsWhateverTheDiceShow(terms: seq<Term>)
    requires AllInRange(terms)
    ensures (forall o :: OnDie(o) ==> EvalTerms(terms, o, Start).Done?) <==>
            AllFit(terms) && Most(terms) <= MAX_DICE_PER_EXPRESSION
  {
    if AllFit(terms) && Most(terms) <= MAX_DICE_PER_EXPRESSION {
      forall o | OnDie(o) ensures EvalTerms(terms, o, Start).Done? {
        FittingAlwaysRolls(terms, o, Start);
      }
    }
    if forall o :: OnDie(o) ==> EvalTerms(terms, o, Start).Done? {
      var o := Costliest(TermsFaces(terms));
      assert OnDie(o);
      ValidationIsNotEnough(terms, o, Start);
      TermsCost(terms, o, Start);
    }
  }

  /** A text that passes the form's validation rolls with every die source under the same condition. */
  lemma ValidTextRollsExactlyWhen(text: string)
    requires Parse(text).Ok?
    ensures (forall o :: OnDie(o) ==> Evaluate(text, o).Ok?) <==>
            AllFit(Parse(text).value) && Most(Parse(text).value) <= MAX_DICE_PER_EXPRESSION
  {
    var terms := Parse(text).value;
    ParseInRange(text);
    RollsWhateverTheDiceShow(terms);
    assert forall o :: Evaluate(text, o).Ok? <==> EvalTerms(terms, o, Start).Done?;
  }
}
