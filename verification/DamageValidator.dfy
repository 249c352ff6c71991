/** The limits of the damage-expression validator (python/vtt_orchestrator/server.py) and the validator
    itself. */
module DamageValidator {
  import opened Text
  import opened DamageExpression

  // ---------------------------------------------------------------- the limits

  ghost function DiceNumber(count: string): nat {
    if count == "" then 1 else NumberOf(count)
  }

  /** The dice in order: a wrong side or a total over the limit stops at once. */
  ghost function CheckDice(dice: seq<(string, string)>, total: nat): Option<DamageError> {
    if dice == [] then None
    else if NumberOf(dice[0].1) !in SIDES_ALLOWED then Some(SideNotAllowed)
    else if total + DiceNumber(dice[0].0) > MAX_TOTAL_DICE then Some(TooManyDice)
    else CheckDice(dice[1..], total + DiceNumber(dice[0].0))
  }

  ghost function CheckConstants(constants: seq<string>): Option<DamageError> {
    if constants == [] then None
    else if NumberOf(constants[0]) > MAX_CONSTANT_TERM then Some(ConstantTooLarge)
    else CheckConstants(constants[1..])
  }

  ghost function Validated(value: string): Result<string, DamageError> {
    if !InGrammar(Strip(value)) then Err(NotDice)
    else match CheckDice(FoundDice(value), 0)
      case Some(error) => Err(error)
      case None =>
        match CheckConstants(FoundConstants(value, true))
        case Some(error) => Err(error)
        case None => Ok(value)
  }

  ghost function TotalDice(ps: seq<Piece>): nat {
    if ps == [] then 0
    else if ps[0].roll.Dice? then DiceNumber(ps[0].roll.count) + TotalDice(ps[1..])
    else TotalDice(ps[1..])
  }

  ghost predicate RollAllowed(roll: Roll) {
    match roll
    case Dice(_, sides) => NumberOf(sides) in SIDES_ALLOWED
    case Flat(digits) => NumberOf(digits) <= MAX_CONSTANT_TERM
  }

  /** What the rules promise about the terms as written. */
  ghost predicate WithinLimits(ps: seq<Piece>) {
    TotalDice(ps) <= MAX_TOTAL_DICE && forall i :: 0 <= i < |ps| ==> RollAllowed(ps[i].roll)
  }

  ghost predicate EachAllowed(ps: seq<Piece>) {
    ps != [] ==> RollAllowed(ps[0].roll) && EachAllowed(ps[1..])
  }

  lemma {:induction false} EachAllowedIs(ps: seq<Piece>)
    ensures EachAllowed(ps) <==> forall i :: 0 <= i < |ps| ==> RollAllowed(ps[i].roll)
  {
    if ps != [] {
      EachAllowedIs(ps[1..]);
      if forall i :: 0 <= i < |ps| ==> RollAllowed(ps[i].roll) {
        forall i | 0 <= i < |ps[1..]| ensures RollAllowed(ps[1..][i].roll) { assert ps[1..][i] == ps[i + 1]; }
      }
      if EachAllowed(ps) {
        forall i | 0 <= i < |ps| ensures RollAllowed(ps[i].roll) {
          if i > 0 { assert ps[i] == ps[1..][i - 1]; }
        }
      }
    }
  }

  lemma {:induction false} LimitsAreChecked(ps: seq<Piece>, total: nat)
    requires total <= MAX_TOTAL_DICE
    ensures CheckDice(DiceOf(ps), total).None? && CheckConstants(ConstantsOf(ps)).None? <==>
            total + TotalDice(ps) <= MAX_TOTAL_DICE && EachAllowed(ps)
  {
    if ps != [] {
      if ps[0].roll.Flat? {
        LimitsAreChecked(ps[1..], total);
      } else if total + DiceNumber(ps[0].roll.count) <= MAX_TOTAL_DICE {
        LimitsAreChecked(ps[1..], total + DiceNumber(ps[0].roll.count));
      }
    }
  }

  lemma LimitsHold(value: string, ps: seq<Piece>)
    requires ReadExpression(Strip(value)) == Some(ps)
    ensures Validated(value) == Ok(value) <==> WithinLimits(ps)
  {
    InGrammarExactly(Strip(value));
    SearchesFindTheTerms(value, ps);
    LimitsAreChecked(ps, 0);
    EachAllowedIs(ps);
  }

  /** A text passes exactly when, between outer space, it can be read as terms of which the dice number at
      most 40 in all, each die is one of the allowed kinds and each constant is at most 100. */
  lemma PassesExactlyWithinLimits(value: string)
    ensures Validated(value) == Ok(value) <==>
            exists ps :: ValidExpression(ps) && Spell(ps, "") == Strip(value) && WithinLimits(ps)
  {
    if Validated(value) == Ok(value) {
      InGrammarExactly(Strip(value));
      var ps := ReadExpression(Strip(value)).value;
      ReadIsSpelled(Strip(value));
      LimitsHold(value, ps);
    }
    if ps :| ValidExpression(ps) && Spell(ps, "") == Strip(value) && WithinLimits(ps) {
      SpellingIsRead(Strip(value), ps);
      LimitsHold(value, ps);
    }
  }

  // ---------------------------------------------------------------- which rule is told

  /** Term k is no dice, or dice of an allowed kind that with those before it stay within the limit. */
  ghost predicate DiceFine(ps: seq<Piece>, k: nat, total: nat)
    requires k < |ps|
  {
    ps[k].roll.Dice? ==> NumberOf(ps[k].roll.sides) in SIDES_ALLOWED && total + TotalDice(ps[..k + 1]) <= MAX_TOTAL_DICE
  }

  /** Term k is the first that breaks a rule on dice. */
  ghost predicate BreaksFirst(ps: seq<Piece>, k: nat, total: nat) {
    k < |ps| && !DiceFine(ps, k, total) && forall j: nat :: j < k ==> DiceFine(ps, j, total)
  }

  ghost function RuleBroken(roll: Roll): DamageError {
    if roll.Dice? && NumberOf(roll.sides) !in SIDES_ALLOWED then SideNotAllowed else TooManyDice
  }

  lemma FineBehind(ps: seq<Piece>, k: nat, total: nat)
    requires k + 1 < |ps|
    ensures DiceFine(ps, k + 1, total) <==>
            DiceFine(ps[1..], k, total + if ps[0].roll.Dice? then DiceNumber(ps[0].roll.count) else 0)
  {
    assert ps[..k + 2][1..] == ps[1..][..k + 1];
  }

  lemma {:induction false} FirstBreak(ps: seq<Piece>, total: nat) returns (k: nat)
    ensures k <= |ps| && (k < |ps| ==> BreaksFirst(ps, k, total)) && forall j: nat :: j < k ==> DiceFine(ps, j, total)
    ensures CheckDice(DiceOf(ps), total) == if k == |ps| then None else Some(RuleBroken(ps[k].roll))
    decreases ps
  {
    k := 0;
    if ps != [] {
      var rest, more := ps[1..], total + if ps[0].roll.Dice? then DiceNumber(ps[0].roll.count) else 0;
      assert ps[..1][1..] == [] && TotalDice(ps[..1]) == more - total;
      if DiceFine(ps, 0, total) {
        k := FirstBreak(rest, more);
        forall j: nat | 0 < j < |ps| ensures DiceFine(ps, j, total) <==> DiceFine(rest, j - 1, more) {
          FineBehind(ps, j - 1, total);
        }
        k := k + 1;
      }
    }
  }

  lemma DiceRuleTold(ps: seq<Piece>, total: nat)
    ensures CheckDice(DiceOf(ps), total).None? <==> forall k: nat :: k < |ps| ==> DiceFine(ps, k, total)
    ensures forall k: nat :: BreaksFirst(ps, k, total) ==>
              CheckDice(DiceOf(ps), total) == Some(RuleBroken(ps[k].roll))
  {
    hide DiceFine, CheckDice, RuleBroken;
    var first := FirstBreak(ps, total);
    assert forall k: nat :: BreaksFirst(ps, k, total) ==> !(k < first) && !(first < k);
  }

  lemma {:induction false} ConstantRuleTold(ps: seq<Piece>)
    ensures CheckConstants(ConstantsOf(ps)) in [None, Some(ConstantTooLarge)]
    ensures CheckConstants(ConstantsOf(ps)).Some? <==>
            exists k: nat :: k < |ps| && ps[k].roll.Flat? && NumberOf(ps[k].roll.digits) > MAX_CONSTANT_TERM
  {
    if ps != [] {
      ConstantRuleTold(ps[1..]);
      assert forall k: nat :: 1 <= k < |ps| ==> ps[k] == ps[1..][k - 1];
      if k: nat :| k < |ps[1..]| && ps[1..][k].roll.Flat? && NumberOf(ps[1..][k].roll.digits) > MAX_CONSTANT_TERM {
        assert ps[k + 1].roll.Flat?;
      }
    }
  }

  /** The rule told for a text that reads as terms: that on dice which the first offending dice break, kind before
      total; if no dice offend, that on constants when one is too large; and otherwise none. */
  lemma FirstBrokenRuleIsTold(value: string, ps: seq<Piece>)
    requires ValidExpression(ps) && Spell(ps, "") == Strip(value)
    ensures forall k: nat :: BreaksFirst(ps, k, 0) ==> Validated(value) == Err(RuleBroken(ps[k].roll))
    ensures (forall k: nat :: k < |ps| ==> DiceFine(ps, k, 0)) ==>
              Validated(value) ==
              if exists k: nat :: k < |ps| && ps[k].roll.Flat? && NumberOf(ps[k].roll.digits) > MAX_CONSTANT_TERM
              then Err(ConstantTooLarge) else Ok(value)
  {
    hide FoundDice, FoundConstants, DiceOf, ConstantsOf, Spell, ReadExpression, InGrammar, Strip;
    InGrammarExactly(Strip(value));
    SpellingIsRead(Strip(value), ps);
    SearchesFindTheTerms(value, ps);
    DiceRuleTold(ps, 0);
    ConstantRuleTold(ps);
  }

  /** A text is told to be no dice exactly when it does not read as terms at all. */
  lemma NotDiceExactlyWhen(value: string)
    ensures Validated(value) == Err(NotDice) <==> !exists ps :: ValidExpression(ps) && Spell(ps, "") == Strip(value)
  {
    hide Validated, ValidExpression, Spell, Strip, InGrammar;
    InGrammarExactly(Strip(value));
    NotDiceIsGrammar(value);
    if InGrammar(Strip(value)) {
      ReadIsSpelled(Strip(value));
      assert ValidExpression(ReadExpression(Strip(value)).value);
    }
    if ps :| ValidExpression(ps) && Spell(ps, "") == Strip(value) {
      SpellingIsRead(Strip(value), ps);
    }
  }

  lemma NotDiceIsGrammar(value: string)
    ensures Validated(value) == Err(NotDice) <==> !InGrammar(Strip(value))
  {
    hide FoundDice, FoundConstants, InGrammar, Strip;
    OnlyDiceRules(FoundDice(value), 0);
    OnlyConstantRules(FoundConstants(value, true));
  }

  lemma {:induction false} OnlyConstantRules(constants: seq<string>)
    ensures CheckConstants(constants) in [None, Some(ConstantTooLarge)]
  {
    if constants != [] { OnlyConstantRules(constants[1..]); }
  }

  lemma {:induction false} OnlyDiceRules(dice: seq<(string, string)>, total: nat)
    ensures CheckDice(dice, total) in [None, Some(SideNotAllowed), Some(TooManyDice)]
    decreases dice
  {
    if dice != [] { OnlyDiceRules(dice[1..], total + DiceNumber(dice[0].0)); }
  }

  // ---------------------------------------------------------------- the validator

  method SkipDigits(s: string, i: nat) returns (j: nat)
    requires i <= |s|
    ensures i <= j <= |s| && s[i..j] == DigitRun(s[i..]) && s[j..] == AfterDigits(s[i..])
  {
    j := i;
    while j < |s| && IsDigit(s[j])
      invariant i <= j <= |s| && forall k :: i <= k < j ==> IsDigit(s[k])
    {
      j := j + 1;
    }
    assert s[i..] == s[i..j] + s[j..];
    DigitsThen(s[i..j], s[j..]);
  }

  method SkipSpaces(s: string, i: nat) returns (j: nat)
    requires i <= |s|
    ensures i <= j <= |s| && s[i..j] == SpaceRun(s[i..]) && s[j..] == AfterSpace(s[i..])
  {
    j := i;
    while j < |s| && IsPythonSpace(s[j])
      invariant i <= j <= |s| && forall k :: i <= k < j ==> IsPythonSpace(s[k])
    {
      j := j + 1;
    }
    assert s[i..] == s[i..j] + s[j..];
    SpaceRunOf(s[i..j], s[j..]);
  }

  /** The number's value, digit by digit. */
  method ToNumber(digits: string) returns (n: nat)
    requires AllDigits(digits)
    ensures n == NumberOf(digits)
  {
    n := 0;
    for i := 0 to |digits|
      invariant n == NumberOf(digits[..i])
    {
      NumberOfPrefix(digits, i);
      n := n * 10 + DigitValue(digits[i]);
    }
    assert digits[..|digits|] == digits;
  }

  lemma RollWithDie(s: string, digits: string, t: string, sides: string, rest: string)
    requires digits == DigitRun(s) && t == AfterDigits(s) && StartsWithD(t)
    requires sides == DigitRun(t[1..]) && rest == AfterDigits(t[1..])
    ensures ReadRoll(s) == if sides == "" then None else Some((Dice(digits, sides), rest))
  {
  }

  lemma RollWithoutDie(s: string, digits: string, t: string)
    requires digits == DigitRun(s) && t == AfterDigits(s) && !StartsWithD(t)
    ensures ReadRoll(s) == if digits == "" then None else Some((Flat(digits), t))
  {
  }

  /** A roll from i to j; its die letter, if it has one, stands at d. */
  method MatchRoll(s: string, i: nat) returns (ok: bool, d: nat, j: nat)
    requires i <= |s|
    ensures ok <==> ReadRoll(s[i..]).Some?
    ensures ok ==> i <= d <= j <= |s| && i < j
    ensures ok ==> ReadRoll(s[i..]) == Some((if d < j then Dice(s[i..d], s[d + 1..j]) else Flat(s[i..j]), s[j..]))
    ensures ok && d < j ==> AllDigits(s[i..d]) && AllDigits(s[d + 1..j])
  {
    hide ReadRoll, DigitRun, AfterDigits, AllDigits;
    d := SkipDigits(s, i);
    if d < |s| && s[d] == 'd' {
      j := SkipDigits(s, d + 1);
      ok := j > d + 1;
      assert s[d..][1..] == s[d + 1..];
      RollWithDie(s[i..], s[i..d], s[d..], s[d + 1..j], s[j..]);
    } else {
      ok, j := d > i, d;
      RollWithoutDie(s[i..], s[i..d], s[d..]);
    }
  }

  /** The leading term, whose sign is optional. */
  method MatchFirst(s: string) returns (ok: bool, i: nat)
    ensures ok ==> i <= |s|
    ensures ReadExpression(s).Some? <==> ok && ReadTail(s[i..]).Some?
  {
    i := if s != "" && s[0] in "+-" then 1 else 0;
    assert s[|LeadingSign(s)|..] == s[i..];
    i := SkipSpaces(s, i);
    var d;
    ok, d, i := MatchRoll(s, i);
  }

  lemma TailAt(s: string, t: string, u: string)
    requires s != "" && t == AfterSpace(s) && t != "" && t[0] in "+-" && u == AfterSpace(t[1..])
    ensures ReadTail(s).Some? <==> ReadRoll(u).Some? && ReadTail(ReadRoll(u).value.1).Some?
  {
  }

  lemma TailStops(s: string)
    requires s != "" && (AfterSpace(s) == "" || AfterSpace(s)[0] !in "+-")
    ensures ReadTail(s).None?
  {
  }

  /** A further term, whose sign is not. */
  method MatchNext(s: string, i: nat) returns (ok: bool, j: nat)
    requires i < |s|
    ensures ok ==> i < j <= |s|
    ensures ReadTail(s[i..]).Some? <==> ok && ReadTail(s[j..]).Some?
  {
    ghost var whole := ReadTail(s[i..]).Some?;
    var k := SkipSpaces(s, i);
    if k == |s| || s[k] !in "+-" {
      TailStops(s[i..]);
      return false, k;
    }
    var l := SkipSpaces(s, k + 1);
    assert s[k..][1..] == s[k + 1..];
    TailAt(s[i..], s[k..], s[l..]);
    var d;
    ok, d, j := MatchRoll(s, l);
  }

  /** The full match, reading from left to right. */
  method Matches(s: string) returns (ok: bool)
    ensures ok <==> InGrammar(s)
  {
    InGrammarExactly(s);
    ghost var whole := ReadExpression(s).Some?;
    var i;
    ok, i := MatchFirst(s);
    while ok && i < |s|
      invariant ok ==> i <= |s|
      invariant whole <==> ok && ReadTail(s[i..]).Some?
      decreases ok, |s| - i
    {
      ok, i := MatchNext(s, i);
    }
  }

  lemma DiceHit(s: string, count: string, sides: string, rest: string)
    requires DiceAt(s) == Some((count, sides, rest))
    ensures FoundDice(s) == [(count, sides)] + FoundDice(rest)
  {
  }

  lemma DiceMiss(s: string)
    requires DiceAt(s).None? && s != ""
    ensures FoundDice(s) == FoundDice(s[1..])
  {
  }

  /** One step of the search: what it adds and where it goes on. */
  method NextDice(s: string, i: nat) returns (more: seq<(string, string)>, j: nat)
    requires i < |s|
    ensures i < j <= |s| && FoundDice(s[i..]) == more + FoundDice(s[j..])
    ensures forall k :: 0 <= k < |more| ==> AllDigits(more[k].0) && AllDigits(more[k].1)
  {
    hide FoundDice, AllDigits, ReadRoll;
    more, j := [], i + 1;
    var ok, d, end := MatchRoll(s, i);
    if ok && d < end {
      DiceHit(s[i..], s[i..d], s[d + 1..end], s[end..]);
      return [(s[i..d], s[d + 1..end])], end;
    }
    DiceMiss(s[i..]);
    assert s[i..][1..] == s[i + 1..];
  }

  lemma NothingInEmpty(s: string, atStart: bool)
    requires s == ""
    ensures FoundDice(s) == [] && FoundConstants(s, atStart) == []
  {
  }

  method FindDice(s: string) returns (found: seq<(string, string)>)
    ensures found == FoundDice(s)
    ensures forall i :: 0 <= i < |found| ==> AllDigits(found[i].0) && AllDigits(found[i].1)
  {
    hide FoundDice, AllDigits;
    found := [];
    ghost var whole := FoundDice(s);
    var i := 0;
    assert s[0..] == s;
    while i < |s|
      invariant i <= |s| && found + FoundDice(s[i..]) == whole
      invariant forall k :: 0 <= k < |found| ==> AllDigits(found[k].0) && AllDigits(found[k].1)
    {
      var more, j := NextDice(s, i);
      found, i := found + more, j;
    }
    NothingInEmpty(s[i..], false);
  }

  /** A number after optional space that no die letter follows. */
  method MatchNumber(s: string, i: nat) returns (ok: bool, from: nat, to: nat)
    requires i <= |s|
    ensures ok <==> NumberAt(s[i..]).Some?
    ensures ok ==> i <= from < to <= |s| && NumberAt(s[i..]) == Some((s[from..to], s[to..])) && AllDigits(s[from..to])
  {
    from := SkipSpaces(s, i);
    to := SkipDigits(s, from);
    ok := to > from && !(to < |s| && s[to] == 'd');
  }

  method NextConstant(s: string, i: nat) returns (more: seq<string>, j: nat)
    requires i < |s|
    ensures i < j <= |s| && FoundConstants(s[i..], i == 0) == more + FoundConstants(s[j..], false)
    ensures forall k :: 0 <= k < |more| ==> AllDigits(more[k])
  {
    hide FoundConstants, AllDigits, NumberAt, SpaceRun, DigitRun;
    more, j := [], i + 1;
    assert s[i..][1..] == s[i + 1..];
    var ok, from, to := false, i, i;
    if i == 0 { ok, from, to := MatchNumber(s, i); }
    if !ok && s[i] in "+-" { ok, from, to := MatchNumber(s, i + 1); }
    if ok {
      ConstantHit(s[i..], i == 0, s[from..to], s[to..]);
      return [s[from..to]], to;
    }
    ConstantMiss(s[i..], i == 0);
  }

  method FindConstants(s: string) returns (found: seq<string>)
    ensures found == FoundConstants(s, true)
    ensures forall i :: 0 <= i < |found| ==> AllDigits(found[i])
  {
    hide FoundConstants, AllDigits;
    found := [];
    ghost var whole := FoundConstants(s, true);
    var i := 0;
    assert s[0..] == s;
    while i < |s|
      invariant i <= |s| && found + FoundConstants(s[i..], i == 0) == whole
      invariant forall k :: 0 <= k < |found| ==> AllDigits(found[k])
    {
      var more, j := NextConstant(s, i);
      found, i := found + more, j;
    }
    NothingInEmpty(s[i..], i == 0);
  }

  method StripSpace(s: string) returns (t: string)
    ensures t == Strip(s)
  {
    var i := 0;
    while i < |s| && IsPythonSpace(s[i])
      invariant i <= |s| && StripLeft(s[i..]) == StripLeft(s)
    {
      assert s[i..][1..] == s[i + 1..];
      i := i + 1;
    }
    t := s[i..];
    ghost var left := t;
    while t != "" && IsPythonSpace(t[|t| - 1])
      invariant StripRight(t) == StripRight(left)
      decreases |t|
    {
      t := t[..|t| - 1];
    }
  }

  method CheckDiceTerms(dice: seq<(string, string)>) returns (error: Option<DamageError>)
    requires forall i :: 0 <= i < |dice| ==> AllDigits(dice[i].0) && AllDigits(dice[i].1)
    ensures error == CheckDice(dice, 0)
  {
    ghost var whole := CheckDice(dice, 0);
    var total: nat := 0;
    assert dice[0..] == dice;
    for i := 0 to |dice|
      invariant total <= MAX_TOTAL_DICE && whole == CheckDice(dice[i..], total)
    {
      assert dice[i..][1..] == dice[i + 1..];
      var sides := ToNumber(dice[i].1);
      if sides !in SIDES_ALLOWED { return Some(SideNotAllowed); }
      var count := ToNumber(dice[i].0);
      total := total + if dice[i].0 == "" then 1 else count;
      if total > MAX_TOTAL_DICE { return Some(TooManyDice); }
    }
    return None;
  }

  method CheckConstantTerms(constants: seq<string>) returns (error: Option<DamageError>)
    requires forall i :: 0 <= i < |constants| ==> AllDigits(constants[i])
    ensures error == CheckConstants(constants)
  {
    ghost var whole := CheckConstants(constants);
    assert constants[0..] == constants;
    for i := 0 to |constants|
      invariant whole == CheckConstants(constants[i..])
    {
      assert constants[i..][1..] == constants[i + 1..];
      var n := ToNumber(constants[i]);
      if n > MAX_CONSTANT_TERM { return Some(ConstantTooLarge); }
    }
    return None;
  }

  /** The text unchanged, or the first rule it breaks. */
  method ValidateDamageExpression(value: string) returns (r: Result<string, DamageError>)
    ensures r == Validated(value)
  {
    var stripped := StripSpace(value);
    var ok := Matches(stripped);
    if !ok { return Err(NotDice); }
    var dice := FindDice(value);
    var error := CheckDiceTerms(dice);
    if error.Some? { return Err(error.value); }
    var constants := FindConstants(value);
    error := CheckConstantTerms(constants);
    if error.Some? { return Err(error.value); }
    return Ok(value);
  }
}
