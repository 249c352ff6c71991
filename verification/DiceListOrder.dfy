/** The lists of a whole expression (client/src/api/dice_notation.ts): when `rolls` and `dropped`, which gather the
    pools of all terms, are in draw order whatever the dice show. */
module DiceListOrder {
  import opened Text
  import opened DiceGrammar
  import opened KeepSelection
  import opened DiceRolls
  import opened DiceLimits
  import opened DiceDrawOrder

  datatype List = Rolls | Dropped

  // ---------------------------------------------------------------- the lists of an expression

  /** What a pool adds to a list, as it is listed or as it was drawn. */
  ghost function PoolList(which: List, drawn: bool, dice: seq<RolledDie>, kept: set<nat>): seq<int> {
    match which
    case Rolls => if drawn then RollsDrawn(dice, 0, kept) else RollsOf(dice, 0, kept)
    case Dropped => if drawn then DroppedDrawn(dice, 0, kept) else DroppedOf(dice, 0, kept)
  }

  ghost function TermList(which: List, drawn: bool, term: Term, o: Oracle, at: nat): seq<int>
    requires Fits(term)
  {
    match term
    case Constant(_, _) => []
    case Dice(_, count, sides, mods) =>
      var dice := Pool(o, at, count, sides, mods);
      PoolList(which, drawn, dice, KeptOf(dice, mods.keep))
  }

  ghost function TermDraws(term: Term, o: Oracle, at: nat): nat {
    match term
    case Constant(_, _) => 0
    case Dice(_, count, sides, mods) => Draws(Pool(o, at, count, sides, mods))
  }

  /** Each term draws where the one before stopped. */
  ghost function ListOf(which: List, drawn: bool, terms: seq<Term>, o: Oracle, at: nat): seq<int>
    requires AllFit(terms)
  {
    if terms == [] then []
    else TermList(which, drawn, terms[0], o, at) +
         ListOf(which, drawn, terms[1..], o, at + TermDraws(terms[0], o, at))
  }

  lemma ListStep(which: List, drawn: bool, terms: seq<Term>, o: Oracle, at: nat)
    requires AllFit(terms) && terms != []
    ensures Fits(terms[0]) && AllFit(terms[1..])
    ensures ListOf(which, drawn, terms, o, at) ==
            TermList(which, drawn, terms[0], o, at) +
            ListOf(which, drawn, terms[1..], o, at + TermDraws(terms[0], o, at))
  {
  }

  lemma RestInRange(terms: seq<Term>)
    requires terms != [] && AllInRange(terms)
    ensures InRange(terms[0]) && AllInRange(terms[1..])
  {
  }

  lemma NoTerms(which: List, drawn: bool, terms: seq<Term>, o: Oracle, at: nat)
    requires terms == []
    ensures ListOf(which, drawn, terms, o, at) == []
  {
  }

  /** What a term appends is what it adds to the two lists. */
  lemma TermAdds(term: Term, o: Oracle, t: Tally)
    requires Fits(term) && EvalTerm(term, o, t).Done?
    ensures var after := EvalTerm(term, o, t).tally;
            && after.rolls == t.rolls + TermList(Rolls, false, term, o, |t.log|)
            && after.dropped == t.dropped + TermList(Dropped, false, term, o, |t.log|)
            && |after.log| == |t.log| + TermDraws(term, o, |t.log|)
  {
    if term.Dice? { TermAppends(term, o, t); }
  }

  lemma {:induction false} TermsAdd(terms: seq<Term>, o: Oracle, t: Tally)
    requires AllFit(terms) && EvalTerms(terms, o, t).Done?
    ensures EvalTerms(terms, o, t).tally.rolls == t.rolls + ListOf(Rolls, false, terms, o, |t.log|)
    ensures EvalTerms(terms, o, t).tally.dropped == t.dropped + ListOf(Dropped, false, terms, o, |t.log|)
  {
    hide TermList, TermDraws, EvalTerm, AllFit, ListOf;
    if terms == [] {
      NoTerms(Rolls, false, terms, o, |t.log|);
      NoTerms(Dropped, false, terms, o, |t.log|);
    } else {
      ListStep(Rolls, false, terms, o, |t.log|);
      ListStep(Dropped, false, terms, o, |t.log|);
      TermAdds(terms[0], o, t);
      TermsAdd(terms[1..], o, EvalTerm(terms[0], o, t).tally);
    }
  }

  // ---------------------------------------------------------------- pools elsewhere in the draws

  /** From `at` on the one source gives what the other gives from `there` on. */
  ghost predicate Shifted(o: Oracle, at: nat, other: Oracle, there: nat) {
    forall n, sides: nat :: n >= at ==> o(n, sides) == other(n - at + there, sides)
  }

  lemma ShiftedOn(o: Oracle, at: nat, other: Oracle, there: nat, k: nat)
    requires Shifted(o, at, other, there)
    ensures Shifted(o, at + k, other, there + k)
  {
  }

  lemma {:induction false} ShiftedChain(o: Oracle, at: nat, other: Oracle, there: nat, sides: nat, current: nat,
                                        left: nat)
    requires Shifted(o, at, other, there)
    ensures Explosions(o, at, sides, current, left) == Explosions(other, there, sides, current, left)
    decreases left
  {
    if current == sides && left > 0 {
      assert o(at, sides) == other(there, sides);
      ShiftedChain(o, at + 1, other, there + 1, sides, o(at, sides), left - 1);
    }
  }

  lemma ShiftedDie(o: Oracle, at: nat, other: Oracle, there: nat, sides: nat, mods: Mods)
    requires Shifted(o, at, other, there)
    ensures RollDie(o, at, sides, mods) == RollDie(other, there, sides, mods)
  {
    assert o(at, sides) == other(there, sides) && o(at + 1, sides) == other(there + 1, sides);
    var die := RollDie(o, at, sides, mods);
    var skip := if die.rerolledFrom.Some? then 2 else 1;
    ShiftedChain(o, at + skip, other, there + skip, sides, die.value, MAX_EXPLOSIONS_PER_DIE);
  }

  lemma {:induction false} ShiftedPool(o: Oracle, at: nat, other: Oracle, there: nat, count: nat, sides: nat,
                                       mods: Mods)
    requires Shifted(o, at, other, there)
    ensures Pool(o, at, count, sides, mods) == Pool(other, there, count, sides, mods)
    decreases count
  {
    if count > 0 {
      hide RollDie;
      FirstDieOf(o, at, count, sides, mods);
      FirstDieOf(other, there, count, sides, mods);
      ShiftedDie(o, at, other, there, sides, mods);
      var n := DieDraws(RollDie(o, at, sides, mods));
      ShiftedPool(o, at + n, other, there + n, count - 1, sides, mods);
    }
  }

  lemma ShiftedTerm(which: List, drawn: bool, term: Term, o: Oracle, at: nat, other: Oracle, there: nat)
    requires Fits(term) && Shifted(o, at, other, there)
    ensures TermList(which, drawn, term, o, at) == TermList(which, drawn, term, other, there)
    ensures TermDraws(term, o, at) == TermDraws(term, other, there)
  {
    if term.Dice? { ShiftedPool(o, at, other, there, term.count, term.sides, term.mods); }
  }

  lemma {:induction false} ShiftedList(which: List, drawn: bool, terms: seq<Term>, o: Oracle, at: nat, other: Oracle,
                                       there: nat)
    requires AllFit(terms) && Shifted(o, at, other, there)
    ensures ListOf(which, drawn, terms, o, at) == ListOf(which, drawn, terms, other, there)
  {
    hide TermList, TermDraws, Shifted, AllFit, ListOf;
    if terms == [] {
      NoTerms(which, drawn, terms, o, at);
      NoTerms(which, drawn, terms, other, there);
    } else {
      ListStep(which, drawn, terms, o, at);
      ListStep(which, drawn, terms, other, there);
      ShiftedTerm(which, drawn, terms[0], o, at, other, there);
      var n := TermDraws(terms[0], o, at);
      ShiftedOn(o, at, other, there, n);
      ShiftedList(which, drawn, terms[1..], o, at + n, other, there + n);
    }
  }

  // ---------------------------------------------------------------- term by term

  /** The pool's part of the list is in draw order whatever its dice show. */
  predicate OrderKept(which: List, term: Term) {
    match term
    case Constant(_, _) => true
    case Dice(_, count, sides, mods) =>
      match which
      case Rolls => !mods.explode || count == 1 || mods.keep == Some(Keep(true, 1))
      case Dropped =>
        !CanReroll(mods, sides) || mods.keep.None? || mods.keep.value.n == count || OrderCannotShow(count, sides, mods)
  }

  lemma TermInOrderExactlyWhen(which: List, term: Term)
    requires InRange(term) && Fits(term)
    ensures (forall o, at :: OnDie(o) ==>
               TermList(which, false, term, o, at) == TermList(which, true, term, o, at)) <==>
            OrderKept(which, term)
  {
    match term
    case Constant(_, _) =>
    case Dice(_, count, sides, mods) =>
      match which {
        case Rolls =>
          RollsAreInDrawOrderExactlyWhen(count, sides, mods);
          assert forall o, at :: TermList(which, false, term, o, at) == TermList(which, true, term, o, at) <==>
                                 RollsInOrder(o, at, count, sides, mods);
        case Dropped =>
          DroppedAreInDrawOrderExactlyWhen(count, sides, mods);
          assert forall o, at :: TermList(which, false, term, o, at) == TermList(which, true, term, o, at) <==>
                                 DroppedInOrder(o, at, count, sides, mods);
      }
  }

  lemma {:induction false} SameLengths(dice: seq<RolledDie>, from: nat, kept: set<nat>)
    ensures |RollsOf(dice, from, kept)| == |RollsDrawn(dice, from, kept)|
    ensures |DroppedOf(dice, from, kept)| == |DroppedDrawn(dice, from, kept)|
  {
    if dice != [] { SameLengths(dice[1..], from + 1, kept); }
  }

  lemma SameLengthOf(which: List, term: Term, o: Oracle, at: nat)
    requires Fits(term)
    ensures |TermList(which, false, term, o, at)| == |TermList(which, true, term, o, at)|
  {
    if term.Dice? {
      var dice := Pool(o, at, term.count, term.sides, term.mods);
      SameLengths(dice, 0, KeptOf(dice, term.mods.keep));
    }
  }

  lemma PartsEqual<T>(a: seq<T>, b: seq<T>, c: seq<T>, d: seq<T>)
    requires |a| == |c|
    ensures a + b == c + d <==> a == c && b == d
  {
    if a + b == c + d {
      assert a == (a + b)[..|a|] && c == (c + d)[..|c|];
      assert b == (a + b)[|a|..] && d == (c + d)[|c|..];
    }
  }

  /** A list is in order at a place in the draws exactly when the first term's part and the rest are. */
  lemma ListSplits(which: List, terms: seq<Term>, o: Oracle, at: nat)
    requires AllFit(terms) && terms != []
    ensures ListOf(which, false, terms, o, at) == ListOf(which, true, terms, o, at) <==>
              && TermList(which, false, terms[0], o, at) == TermList(which, true, terms[0], o, at)
              && var next := at + TermDraws(terms[0], o, at);
                 ListOf(which, false, terms[1..], o, next) == ListOf(which, true, terms[1..], o, next)
  {
    hide TermList, TermDraws, ListOf, AllFit;
    var next := at + TermDraws(terms[0], o, at);
    ListStep(which, false, terms, o, at);
    ListStep(which, true, terms, o, at);
    SameLengthOf(which, terms[0], o, at);
    PartsEqual(TermList(which, false, terms[0], o, at), ListOf(which, false, terms[1..], o, next),
               TermList(which, true, terms[0], o, at), ListOf(which, true, terms[1..], o, next));
  }

  lemma {:induction false} ListInOrder(which: List, terms: seq<Term>, o: Oracle, at: nat)
    requires AllInRange(terms) && AllFit(terms) && OnDie(o)
    requires forall i :: 0 <= i < |terms| ==> OrderKept(which, terms[i])
    ensures ListOf(which, false, terms, o, at) == ListOf(which, true, terms, o, at)
  {
    hide TermList, TermDraws, OrderKept, OnDie, AllFit, AllInRange, ListOf;
    if terms == [] {
      NoTerms(which, false, terms, o, at);
      NoTerms(which, true, terms, o, at);
    } else {
      ListStep(which, false, terms, o, at);
      RestInRange(terms);
      ListSplits(which, terms, o, at);
      TermInOrderExactlyWhen(which, terms[0]);
      assert forall i :: 0 <= i < |terms[1..]| ==> terms[1..][i] == terms[i + 1];
      ListInOrder(which, terms[1..], o, at + TermDraws(terms[0], o, at));
    }
  }

  /** The list of the expression is in draw order whatever the dice show. */
  ghost predicate AlwaysInOrder(which: List, terms: seq<Term>)
    requires AllFit(terms)
  {
    forall o :: OnDie(o) ==> ListOf(which, false, terms, o, 0) == ListOf(which, true, terms, o, 0)
  }

  ghost function Advanced(o: Oracle, start: nat): Oracle {
    (n: nat, sides: nat) => o(n + start, sides)
  }

  const Ones: Oracle := (n: nat, sides: nat) => 1

  /** The lowest face for some draws, and then what another source gives. */
  ghost function Behind(o: Oracle, d: nat): Oracle {
    (n: nat, sides: nat) => if n < d then 1 else o(n - d, sides)
  }

  lemma FirstIsInOrder(which: List, terms: seq<Term>)
    requires terms != [] && AllInRange(terms) && AllFit(terms) && AlwaysInOrder(which, terms)
    ensures OrderKept(which, terms[0])
  {
    hide TermList, TermDraws, ListOf, Fits, InRange, OrderKept;
    forall o, at | OnDie(o)
      ensures TermList(which, false, terms[0], o, at) == TermList(which, true, terms[0], o, at)
    {
      var early := Advanced(o, at);
      assert OnDie(early) && Shifted(early, 0, o, at);
      ListSplits(which, terms, early, 0);
      ShiftedTerm(which, false, terms[0], early, 0, o, at);
      ShiftedTerm(which, true, terms[0], early, 0, o, at);
    }
    TermInOrderExactlyWhen(which, terms[0]);
  }

  lemma FirstDraws(term: Term, o: Oracle, other: Oracle)
    requires forall n: nat, sides: nat :: n < TermDraws(term, o, 0) ==> o(n, sides) == other(n, sides)
    ensures TermDraws(term, o, 0) == TermDraws(term, other, 0)
  {
    if term.Dice? { SamePool(o, other, 0, term.count, term.sides, term.mods); }
  }

  lemma RestIsInOrder(which: List, terms: seq<Term>)
    requires terms != [] && AllInRange(terms) && AllFit(terms) && AlwaysInOrder(which, terms)
    ensures AlwaysInOrder(which, terms[1..])
  {
    hide TermList, TermDraws, ListOf, Fits, InRange;
    var d := TermDraws(terms[0], Ones, 0);
    forall o | OnDie(o) ensures ListOf(which, false, terms[1..], o, 0) == ListOf(which, true, terms[1..], o, 0) {
      var late := Behind(o, d);
      assert OnDie(late) && Shifted(late, d, o, 0);
      FirstDraws(terms[0], Ones, late);
      ListSplits(which, terms, late, 0);
      ShiftedList(which, false, terms[1..], late, d, o, 0);
      ShiftedList(which, true, terms[1..], late, d, o, 0);
    }
  }

  lemma {:induction false} EachIsInOrder(which: List, terms: seq<Term>)
    requires AllInRange(terms) && AllFit(terms) && AlwaysInOrder(which, terms)
    ensures forall i :: 0 <= i < |terms| ==> OrderKept(which, terms[i])
  {
    if terms != [] {
      hide OrderKept, AlwaysInOrder, Fits, InRange;
      FirstIsInOrder(which, terms);
      RestIsInOrder(which, terms);
      assert forall i :: 0 <= i < |terms[1..]| ==> terms[1..][i] == terms[i + 1];
      EachIsInOrder(which, terms[1..]);
      forall i | 0 <= i < |terms| ensures OrderKept(which, terms[i]) {
        if i > 0 { assert terms[1..][i - 1] == terms[i]; }
      }
    }
  }

  /** A list of an expression is in draw order whatever the dice show if and only if every pool's part is. */
  lemma ListInOrderExactlyWhen(which: List, terms: seq<Term>)
    requires AllInRange(terms) && AllFit(terms)
    ensures AlwaysInOrder(which, terms) <==> forall i :: 0 <= i < |terms| ==> OrderKept(which, terms[i])
  {
    if AlwaysInOrder(which, terms) { EachIsInOrder(which, terms); }
    if forall i :: 0 <= i < |terms| ==> OrderKept(which, terms[i]) {
      forall o | OnDie(o) ensures ListOf(which, false, terms, o, 0) == ListOf(which, true, terms, o, 0) {
        ListInOrder(which, terms, o, 0);
      }
    }
  }

  // ---------------------------------------------------------------- the evaluated lists

  /** The values of the list in the order they were drawn, which is what the comments promise. */
  ghost predicate ShowsDrawOrder(which: List, terms: seq<Term>, o: Oracle)
    requires AllFit(terms) && EvalTerms(terms, o, Start).Done?
  {
    var t := EvalTerms(terms, o, Start).tally;
    (if which.Rolls? then t.rolls else t.dropped) == ListOf(which, true, terms, o, 0)
  }

  /** Of an expression that rolls whatever its dice show, `rolls` is always in draw order if and only if every pool
      does not explode, is a single die or keeps the one highest; and `dropped` is if and only if in every pool no
      face is rerolled, no die is dropped or the order cannot show. */
  lemma ExpressionInOrderExactlyWhen(which: List, terms: seq<Term>)
    requires AllInRange(terms) && AllFit(terms) && Most(terms) <= MAX_DICE_PER_EXPRESSION
    ensures forall o :: OnDie(o) ==> EvalTerms(terms, o, Start).Done?
    ensures (forall o :: OnDie(o) ==> ShowsDrawOrder(which, terms, o)) <==>
            forall i :: 0 <= i < |terms| ==> OrderKept(which, terms[i])
  {
    ListInOrderExactlyWhen(which, terms);
    forall o | OnDie(o)
      ensures EvalTerms(terms, o, Start).Done?
      ensures ShowsDrawOrder(which, terms, o) <==>
              ListOf(which, false, terms, o, 0) == ListOf(which, true, terms, o, 0)
    {
      FittingAlwaysRolls(terms, o, Start);
      TermsAdd(terms, o, Start);
    }
  }
}
