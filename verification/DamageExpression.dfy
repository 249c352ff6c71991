/** The damage-expression validator (python/vtt_orchestrator/server.py): a regular expression decides the
    shape, then two further searches over the same text pick out the dice and the constants. The searches
    are separate patterns; proved here is that on every accepted text they find exactly the terms of the
    one way to read it. */
module DamageExpression {
  import opened Text

  datatype Roll = Dice(count: string, sides: string) | Flat(digits: string)

  /** A term with the space and sign in front of it. */
  datatype Piece = Piece(before: string, sign: string, after: string, roll: Roll)

  datatype DamageError = NotDice | SideNotAllowed | TooManyDice | ConstantTooLarge

  const SIDES_ALLOWED := {4, 6, 8, 10, 12, 20, 100}
  const MAX_TOTAL_DICE := 40
  const MAX_CONSTANT_TERM := 100

  // ---------------------------------------------------------------- what the pattern describes

  ghost predicate Blank(s: string) {
    forall i :: 0 <= i < |s| ==> IsPythonSpace(s[i])
  }

  ghost function RollText(roll: Roll): string {
    match roll
    case Dice(count, sides) => count + ("d" + sides)
    case Flat(digits) => digits
  }

  ghost function Spell(ps: seq<Piece>, rest: string): string {
    if ps == [] then rest
    else ps[0].before + (ps[0].sign + (ps[0].after + (RollText(ps[0].roll) + Spell(ps[1..], rest))))
  }

  ghost predicate ValidRoll(roll: Roll) {
    match roll
    case Dice(count, sides) => AllDigits(count) && sides != "" && AllDigits(sides)
    case Flat(digits) => digits != "" && AllDigits(digits)
  }

  ghost predicate ValidPiece(p: Piece) {
    Blank(p.before) && (p.sign == "+" || p.sign == "-") && Blank(p.after) && ValidRoll(p.roll)
  }

  ghost predicate ValidTail(ps: seq<Piece>) {
    ps != [] ==> ValidPiece(ps[0]) && ValidTail(ps[1..])
  }

  ghost predicate ValidExpression(ps: seq<Piece>) {
    && ps != []
    && ps[0].before == "" && (ps[0].sign == "" || ps[0].sign == "+" || ps[0].sign == "-")
    && Blank(ps[0].after) && ValidRoll(ps[0].roll)
    && ValidTail(ps[1..])
  }

  /** The whole text matches the pattern. */
  ghost predicate InGrammar(text: string) {
    exists ps :: ValidExpression(ps) && Spell(ps, "") == text
  }

  // ---------------------------------------------------------------- the match

  ghost function SpaceRun(s: string): (run: string)
    ensures Blank(run) && run <= s
    ensures |run| < |s| ==> !IsPythonSpace(s[|run|])
  {
    if s != "" && IsPythonSpace(s[0]) then [s[0]] + SpaceRun(s[1..]) else ""
  }

  ghost function AfterSpace(s: string): (t: string)
    ensures s == SpaceRun(s) + t
    ensures t != "" ==> !IsPythonSpace(t[0])
  {
    s[|SpaceRun(s)|..]
  }

  ghost function AfterDigits(s: string): (t: string)
    ensures s == DigitRun(s) + t && !StartsWithDigit(t)
  {
    s[|DigitRun(s)|..]
  }

  ghost predicate StartsWithD(s: string) {
    s != "" && s[0] == 'd'
  }

  ghost function ReadRoll(s: string): (r: Option<(Roll, string)>)
    ensures r.Some? ==> |r.value.1| < |s|
  {
    var digits, t := DigitRun(s), AfterDigits(s);
    if StartsWithD(t) then
      var sides := DigitRun(t[1..]);
      if sides == "" then None else Some((Dice(digits, sides), AfterDigits(t[1..])))
    else if digits == "" then None
    else Some((Flat(digits), t))
  }

  ghost function ReadTail(s: string): Option<seq<Piece>>
    decreases |s|
  {
    if s == "" then Some([])
    else
      var t := AfterSpace(s);
      if t == "" || t[0] !in "+-" then None
      else
        var u := AfterSpace(t[1..]);
        match ReadRoll(u)
        case None => None
        case Some((roll, rest)) =>
          match ReadTail(rest)
          case None => None
          case Some(more) => Some([Piece(SpaceRun(s), [t[0]], SpaceRun(t[1..]), roll)] + more)
  }

  ghost function ReadExpression(s: string): Option<seq<Piece>> {
    var sign := LeadingSign(s);
    var t := s[|sign|..];
    match ReadRoll(AfterSpace(t))
    case None => None
    case Some((roll, rest)) =>
      match ReadTail(rest)
      case None => None
      case Some(more) => Some([Piece("", sign, SpaceRun(t), roll)] + more)
  }

  lemma {:induction false} SpaceRunOf(gap: string, rest: string)
    requires Blank(gap) && (rest != "" ==> !IsPythonSpace(rest[0]))
    ensures SpaceRun(gap + rest) == gap && AfterSpace(gap + rest) == rest
  {
    if gap == "" {
      assert gap + rest == rest;
    } else {
      assert (gap + rest)[1..] == gap[1..] + rest;
      SpaceRunOf(gap[1..], rest);
    }
  }

  lemma DigitsThen(digits: string, rest: string)
    requires AllDigits(digits) && !StartsWithDigit(rest)
    ensures DigitRun(digits + rest) == digits && AfterDigits(digits + rest) == rest
  {
    DigitRunOf(digits, rest);
  }

  /** What may stand behind a term: neither a digit nor the die letter. */
  ghost predicate Ended(s: string) {
    !StartsWithDigit(s) && !StartsWithD(s)
  }

  lemma ReadSpelledRoll(roll: Roll, rest: string)
    requires ValidRoll(roll) && Ended(rest)
    ensures ReadRoll(RollText(roll) + rest) == Some((roll, rest))
  {
    match roll
    case Dice(count, sides) =>
      var tail := "d" + (sides + rest);
      assert RollText(roll) + rest == count + tail;
      DigitsThen(count, tail);
      assert tail[1..] == sides + rest;
      DigitsThen(sides, rest);
    case Flat(digits) =>
      DigitsThen(digits, rest);
  }

  lemma RollIsRead(s: string)
    requires ReadRoll(s).Some?
    ensures var (roll, rest) := ReadRoll(s).value; ValidRoll(roll) && s == RollText(roll) + rest
  {
    hide DigitRun, AfterDigits;
    var digits, t := DigitRun(s), AfterDigits(s);
    if StartsWithD(t) {
      assert t == "d" + t[1..];
    }
  }

  lemma RollStart(roll: Roll, rest: string)
    requires ValidRoll(roll)
    ensures var s := RollText(roll) + rest; s != "" && !IsPythonSpace(s[0]) && s[0] !in "+-"
  {
  }

  /** Every later term starts with space or a sign, and so does trailing space. */
  lemma TailEnds(ps: seq<Piece>, rest: string)
    requires ValidTail(ps) && Blank(rest)
    ensures Ended(Spell(ps, rest))
  {
  }

  lemma HeadAndTail(ps: seq<Piece>)
    requires ps != []
    ensures [ps[0]] + ps[1..] == ps
  {
  }

  /** Space and then a term, whatever follows it. */
  lemma RollAfterSpace(gap: string, roll: Roll, rest: string)
    requires Blank(gap) && ValidRoll(roll) && Ended(rest)
    ensures var u := RollText(roll) + rest;
            SpaceRun(gap + u) == gap && AfterSpace(gap + u) == u && ReadRoll(u) == Some((roll, rest))
  {
    RollStart(roll, rest);
    SpaceRunOf(gap, RollText(roll) + rest);
    ReadSpelledRoll(roll, rest);
  }

  lemma SignAfterSpace(gap: string, sign: string, v: string)
    requires Blank(gap) && (sign == "+" || sign == "-")
    ensures var s := gap + (sign + v);
            s != "" && SpaceRun(s) == gap && AfterSpace(s) == sign + v && (sign + v)[0] in "+-" &&
                [(sign + v)[0]] == sign && (sign + v)[1..] == v
  {
    SpaceRunOf(gap, sign + v);
  }

  lemma ReadOnePiece(s: string, t: string, u: string, roll: Roll, rest: string, more: seq<Piece>)
    requires s != "" && t == AfterSpace(s) && t != "" && t[0] in "+-" && u == AfterSpace(t[1..])
    requires ReadRoll(u) == Some((roll, rest)) && ReadTail(rest) == Some(more)
    ensures ReadTail(s) == Some([Piece(SpaceRun(s), [t[0]], SpaceRun(t[1..]), roll)] + more)
  {
  }

  lemma {:induction false} ReadSpelledTail(ps: seq<Piece>)
    requires ValidTail(ps)
    ensures ReadTail(Spell(ps, "")) == Some(ps)
  {
    if ps != [] {
      var p, more := ps[0], Spell(ps[1..], "");
      var u := RollText(p.roll) + more;
      var v := p.after + u;
      TailEnds(ps[1..], "");
      RollAfterSpace(p.after, p.roll, more);
      SignAfterSpace(p.before, p.sign, v);
      ReadSpelledTail(ps[1..]);
      ReadOnePiece(Spell(ps, ""), p.sign + v, u, p.roll, more, ps[1..]);
      HeadAndTail(ps);
    }
  }

  lemma {:induction false} TailIsRead(s: string)
    requires ReadTail(s).Some?
    ensures ValidTail(ReadTail(s).value) && Spell(ReadTail(s).value, "") == s
    decreases |s|
  {
    hide ReadRoll, AfterSpace, SpaceRun, RollText, DigitRun, AllDigits, ValidRoll, Blank;
    if s != "" {
      var t := AfterSpace(s);
      var u := AfterSpace(t[1..]);
      RollIsRead(u);
      var (roll, rest) := ReadRoll(u).value;
      TailIsRead(rest);
      var p := Piece(SpaceRun(s), [t[0]], SpaceRun(t[1..]), roll);
      assert ReadTail(s).value[1..] == ReadTail(rest).value;
      assert t == p.sign + t[1..];
    }
  }

  ghost function LeadingSign(s: string): (sign: string)
    ensures sign <= s && (sign == "" || sign == "+" || sign == "-")
  {
    if s != "" && s[0] in "+-" then [s[0]] else ""
  }

  lemma ReadFromFirst(s: string, t: string, u: string, roll: Roll, rest: string, more: seq<Piece>)
    requires t == s[|LeadingSign(s)|..] && u == AfterSpace(t)
    requires ReadRoll(u) == Some((roll, rest)) && ReadTail(rest) == Some(more)
    ensures ReadExpression(s) == Some([Piece("", LeadingSign(s), SpaceRun(t), roll)] + more)
  {
  }

  lemma SignSplits(sign: string, gap: string, roll: Roll, rest: string)
    requires (sign == "" || sign == "+" || sign == "-") && Blank(gap) && ValidRoll(roll)
    ensures var text := sign + (gap + (RollText(roll) + rest));
            LeadingSign(text) == sign && text[|sign|..] == gap + (RollText(roll) + rest)
  {
    RollStart(roll, rest);
  }

  lemma SpelledIsRead(text: string, ps: seq<Piece>)
    requires ValidExpression(ps)
    requires text == ps[0].sign + (ps[0].after + (RollText(ps[0].roll) + Spell(ps[1..], "")))
    ensures ReadExpression(text) == Some(ps)
  {
    var p, more := ps[0], Spell(ps[1..], "");
    var u := RollText(p.roll) + more;
    SignSplits(p.sign, p.after, p.roll, more);
    TailEnds(ps[1..], "");
    RollAfterSpace(p.after, p.roll, more);
    ReadSpelledTail(ps[1..]);
    ReadFromFirst(text, p.after + u, u, p.roll, more, ps[1..]);
    HeadAndTail(ps);
  }

  lemma ReadIsSpelled(text: string)
    requires ReadExpression(text).Some?
    ensures var ps := ReadExpression(text).value; ValidExpression(ps) && Spell(ps, "") == text
  {
    hide ReadRoll, AfterSpace, SpaceRun, RollText, ReadTail;
    var ps := ReadExpression(text).value;
    var sign := LeadingSign(text);
    var t := text[|sign|..];
    var u := AfterSpace(t);
    var (roll, rest) := ReadRoll(u).value;
    RollIsRead(u);
    TailIsRead(rest);
    assert ps[1..] == ReadTail(rest).value;
    SpellFirst(ps, "");
    assert text == sign + t;
  }

  lemma SpellFirst(ps: seq<Piece>, rest: string)
    requires ps != [] && ps[0].before == ""
    ensures Spell(ps, rest) == ps[0].sign + (ps[0].after + (RollText(ps[0].roll) + Spell(ps[1..], rest)))
  {
    var text := ps[0].sign + (ps[0].after + (RollText(ps[0].roll) + Spell(ps[1..], rest)));
    assert "" + text == text;
  }

  lemma SpellingIsRead(text: string, ps: seq<Piece>)
    requires ValidExpression(ps) && Spell(ps, "") == text
    ensures ReadExpression(text) == Some(ps)
  {
    SpellFirst(ps, "");
    SpelledIsRead(text, ps);
  }

  /** A text has one reading at most, and it is the one found. */
  lemma ReadingIsUnique(text: string, ps: seq<Piece>)
    ensures ReadExpression(text) == Some(ps) <==> ValidExpression(ps) && Spell(ps, "") == text
  {
    if ReadExpression(text) == Some(ps) { ReadIsSpelled(text); }
    if ValidExpression(ps) && Spell(ps, "") == text { SpellingIsRead(text, ps); }
  }

  lemma InGrammarExactly(text: string)
    ensures InGrammar(text) <==> ReadExpression(text).Some?
  {
    if InGrammar(text) {
      var ps :| ValidExpression(ps) && Spell(ps, "") == text;
      ReadingIsUnique(text, ps);
    }
    if ReadExpression(text).Some? {
      ReadingIsUnique(text, ReadExpression(text).value);
    }
  }

  // ---------------------------------------------------------------- the two searches

  /** A match of `(\d*)d(\d+)` at the front: the digits before the letter can only be all of them. */
  ghost function DiceAt(s: string): (r: Option<(string, string, string)>)
    ensures r.Some? ==> |r.value.2| < |s|
  {
    match ReadRoll(s)
    case Some((Dice(count, sides), rest)) => Some((count, sides, rest))
    case _ => None
  }

  /** Every match from left to right, each search starting where the last match ended. */
  ghost function FoundDice(s: string): seq<(string, string)>
    decreases |s|
  {
    if s == "" then []
    else match DiceAt(s)
      case Some((count, sides, rest)) => [(count, sides)] + FoundDice(rest)
      case None => FoundDice(s[1..])
  }

  /** `\s*(\d+)(?![d\d])` at the front: giving digits back would put a digit behind the match. */
  ghost function NumberAt(s: string): (r: Option<(string, string)>)
    ensures r.Some? ==> |r.value.1| < |s|
  {
    var t := AfterSpace(s);
    if DigitRun(t) == "" || StartsWithD(AfterDigits(t)) then None else Some((DigitRun(t), AfterDigits(t)))
  }

  /** `(?:^|[+-])` and the number; `^` holds at the start of the text only. */
  ghost function ConstantAt(s: string, start: bool): (r: Option<(string, string)>)
    ensures r.Some? ==> |r.value.1| < |s|
  {
    if start && NumberAt(s).Some? then NumberAt(s)
    else if s != "" && s[0] in "+-" then NumberAt(s[1..])
    else None
  }

  ghost function FoundConstants(s: string, start: bool): seq<string>
    decreases |s|
  {
    match ConstantAt(s, start)
    case Some((digits, rest)) => [digits] + FoundConstants(rest, false)
    case None => if s == "" then [] else FoundConstants(s[1..], false)
  }

  // ---------------------------------------------------------------- what the terms are

  ghost function DiceOf(ps: seq<Piece>): seq<(string, string)> {
    if ps == [] then []
    else if ps[0].roll.Dice? then [(ps[0].roll.count, ps[0].roll.sides)] + DiceOf(ps[1..])
    else DiceOf(ps[1..])
  }

  ghost function ConstantsOf(ps: seq<Piece>): seq<string> {
    if ps == [] then []
    else if ps[0].roll.Flat? then [ps[0].roll.digits] + ConstantsOf(ps[1..])
    else ConstantsOf(ps[1..])
  }

  // ---------------------------------------------------------------- the search for dice

  lemma {:induction false} DicePassesOver(skip: string, rest: string)
    requires forall i :: 0 <= i < |skip| ==> !IsDigit(skip[i]) && skip[i] != 'd'
    ensures FoundDice(skip + rest) == FoundDice(rest)
  {
    if skip == "" {
      assert skip + rest == rest;
    } else {
      assert (skip + rest)[1..] == skip[1..] + rest;
      DicePassesOver(skip[1..], rest);
    }
  }

  lemma {:induction false} DicePassesNumber(digits: string, rest: string)
    requires AllDigits(digits) && Ended(rest)
    ensures FoundDice(digits + rest) == FoundDice(rest)
  {
    if digits == "" {
      assert digits + rest == rest;
    } else {
      DigitsThen(digits, rest);
      assert (digits + rest)[1..] == digits[1..] + rest;
      DicePassesNumber(digits[1..], rest);
    }
  }

  lemma DiceInRoll(roll: Roll, rest: string)
    requires ValidRoll(roll) && Ended(rest)
    ensures FoundDice(RollText(roll) + rest) ==
            if roll.Dice? then [(roll.count, roll.sides)] + FoundDice(rest) else FoundDice(rest)
  {
    ReadSpelledRoll(roll, rest);
    if roll.Flat? { DicePassesNumber(roll.digits, rest); }
  }

  lemma DiceInPiece(before: string, sign: string, after: string, roll: Roll, rest: string)
    requires Blank(before) && (sign == "" || sign == "+" || sign == "-") && Blank(after) && ValidRoll(roll) &&
             Ended(rest)
    ensures FoundDice(before + (sign + (after + (RollText(roll) + rest)))) ==
            if roll.Dice? then [(roll.count, roll.sides)] + FoundDice(rest) else FoundDice(rest)
  {
    var u := RollText(roll) + rest;
    DicePassesOver(before, sign + (after + u));
    DicePassesOver(sign, after + u);
    DicePassesOver(after, u);
    DiceInRoll(roll, rest);
  }

  lemma {:induction false} DiceAreFound(ps: seq<Piece>, trail: string)
    requires ValidTail(ps) && Blank(trail)
    ensures FoundDice(Spell(ps, trail)) == DiceOf(ps)
  {
    if ps == [] {
      DicePassesOver(trail, "");
      assert trail + "" == trail;
    } else {
      TailEnds(ps[1..], trail);
      DiceInPiece(ps[0].before, ps[0].sign, ps[0].after, ps[0].roll, Spell(ps[1..], trail));
      DiceAreFound(ps[1..], trail);
    }
  }

  // ---------------------------------------------------------------- the search for constants

  lemma {:induction false} ConstantsPassOver(skip: string, rest: string)
    requires forall i :: 0 <= i < |skip| ==> skip[i] !in "+-"
    ensures FoundConstants(skip + rest, false) == FoundConstants(rest, false)
  {
    if skip == "" {
      assert skip + rest == rest;
    } else {
      assert (skip + rest)[1..] == skip[1..] + rest;
      ConstantsPassOver(skip[1..], rest);
    }
  }

  lemma NumberInRoll(gap: string, roll: Roll, rest: string)
    requires Blank(gap) && ValidRoll(roll) && Ended(rest)
    ensures NumberAt(gap + (RollText(roll) + rest)) == if roll.Flat? then Some((roll.digits, rest)) else None
  {
    hide SpaceRun, DigitRun, AfterDigits, AfterSpace;
    RollStart(roll, rest);
    SpaceRunOf(gap, RollText(roll) + rest);
    match roll
    case Dice(count, sides) =>
      assert RollText(roll) + rest == count + ("d" + (sides + rest));
      DigitsThen(count, "d" + (sides + rest));
    case Flat(digits) => DigitsThen(digits, rest);
  }

  lemma ConstantHit(s: string, start: bool, digits: string, rest: string)
    requires ConstantAt(s, start) == Some((digits, rest))
    ensures FoundConstants(s, start) == [digits] + FoundConstants(rest, false)
  {
  }

  lemma ConstantMiss(s: string, start: bool)
    requires ConstantAt(s, start).None?
    ensures FoundConstants(s, start) == if s == "" then [] else FoundConstants(s[1..], false)
  {
  }

  lemma NoSignInRoll(gap: string, roll: Roll, rest: string)
    requires Blank(gap) && ValidRoll(roll)
    ensures FoundConstants(gap + (RollText(roll) + rest), false) == FoundConstants(rest, false)
  {
    hide FoundConstants;
    ConstantsPassOver(gap, RollText(roll) + rest);
    ConstantsPassOver(RollText(roll), rest);
  }

  lemma NumberAfterSign(sign: string, v: string)
    requires sign == "+" || sign == "-"
    ensures (sign + v)[1..] == v && ConstantAt(sign + v, false) == NumberAt(v)
  {
  }

  /** A term after its sign. */
  lemma ConstantInPiece(sign: string, after: string, roll: Roll, rest: string)
    requires (sign == "+" || sign == "-") && Blank(after) && ValidRoll(roll) && Ended(rest)
    ensures FoundConstants(sign + (after + (RollText(roll) + rest)), false) ==
            if roll.Flat? then [roll.digits] + FoundConstants(rest, false) else FoundConstants(rest, false)
  {
    var v := after + (RollText(roll) + rest);
    NumberInRoll(after, roll, rest);
    NumberAfterSign(sign, v);
    if roll.Flat? {
      ConstantHit(sign + v, false, roll.digits, rest);
    } else {
      ConstantMiss(sign + v, false);
      NoSignInRoll(after, roll, rest);
    }
  }

  lemma {:induction false} ConstantsAreFound(ps: seq<Piece>, trail: string)
    requires ValidTail(ps) && Blank(trail)
    ensures FoundConstants(Spell(ps, trail), false) == ConstantsOf(ps)
  {
    if ps == [] {
      ConstantsPassOver(trail, "");
      assert trail + "" == trail;
    } else {
      var p, more := ps[0], Spell(ps[1..], trail);
      ConstantsPassOver(p.before, p.sign + (p.after + (RollText(p.roll) + more)));
      TailEnds(ps[1..], trail);
      ConstantInPiece(p.sign, p.after, p.roll, more);
      ConstantsAreFound(ps[1..], trail);
    }
  }

  lemma UnsignedConstant(gap: string, roll: Roll, rest: string)
    requires Blank(gap) && ValidRoll(roll) && Ended(rest)
    ensures FoundConstants(gap + (RollText(roll) + rest), true) ==
            if roll.Flat? then [roll.digits] + FoundConstants(rest, false) else FoundConstants(rest, false)
  {
    var s := gap + (RollText(roll) + rest);
    NumberInRoll(gap, roll, rest);
    if roll.Flat? {
      ConstantHit(s, true, roll.digits, rest);
    } else {
      NothingAtTheStart(s);
      NoSignInRoll(gap, roll, rest);
    }
  }

  lemma NoNumberBeforeSign(lead: string, sign: string, rest: string)
    requires Blank(lead) && (sign == "+" || sign == "-")
    ensures NumberAt(lead + (sign + rest)).None?
  {
    SpaceRunOf(lead, sign + rest);
  }

  lemma NothingBeforeSign(lead: string, sign: string, v: string)
    requires Blank(lead) && (sign == "+" || sign == "-")
    ensures FoundConstants(lead + (sign + v), true) == FoundConstants(sign + v, false)
  {
    NoNumberBeforeSign(lead, sign, v);
    NothingAtTheStart(lead + (sign + v));
    ConstantsPassOver(lead, sign + v);
  }

  /** The first term, whose sign may be missing, behind the space the pattern never saw. */
  lemma FirstConstant(lead: string, sign: string, after: string, roll: Roll, rest: string)
    requires Blank(lead) && (sign == "" || sign == "+" || sign == "-") && Blank(after) && ValidRoll(roll) && Ended(rest)
    ensures FoundConstants(lead + (sign + (after + (RollText(roll) + rest))), true) ==
            if roll.Flat? then [roll.digits] + FoundConstants(rest, false) else FoundConstants(rest, false)
  {
    hide FoundConstants, RollText, ValidRoll, Ended;
    var u := RollText(roll) + rest;
    if sign == "" {
      assert lead + (sign + (after + u)) == (lead + after) + u;
      UnsignedConstant(lead + after, roll, rest);
    } else {
      NothingBeforeSign(lead, sign, after + u);
      ConstantInPiece(sign, after, roll, rest);
    }
  }

  lemma NothingAtTheStart(s: string)
    requires NumberAt(s).None?
    ensures FoundConstants(s, true) == FoundConstants(s, false)
  {
  }

  // ---------------------------------------------------------------- the searches agree with the pattern

  lemma {:induction false} SpellAppend(ps: seq<Piece>, rest: string)
    ensures Spell(ps, "") + rest == Spell(ps, rest)
  {
    if ps == [] {
      assert Spell(ps, "") + rest == rest;
    } else {
      SpellAppend(ps[1..], rest);
      var p, more := ps[0], Spell(ps[1..], "");
      Reassociate(p.before, p.sign, p.after, RollText(p.roll), more, rest);
    }
  }

  lemma Reassociate(a: string, b: string, c: string, d: string, e: string, f: string)
    ensures (a + (b + (c + (d + e)))) + f == a + (b + (c + (d + (e + f))))
  {
  }

  lemma {:induction false} StripRightSplit(s: string) returns (trail: string)
    ensures Blank(trail) && s == StripRight(s) + trail
  {
    if s != "" && IsPythonSpace(s[|s| - 1]) {
      var t := StripRightSplit(s[..|s| - 1]);
      trail := t + [s[|s| - 1]];
    } else {
      trail := "";
    }
  }

  lemma {:induction false} StripLeftSplit(s: string) returns (lead: string)
    ensures Blank(lead) && s == lead + StripLeft(s)
  {
    if s != "" && IsPythonSpace(s[0]) {
      var t := StripLeftSplit(s[1..]);
      lead := [s[0]] + t;
    } else {
      lead := "";
    }
  }

  /** The text as given is its reading between the outer space that was stripped. */
  lemma StrippedSpace(value: string, ps: seq<Piece>) returns (lead: string, trail: string)
    requires ps != [] && ps[0].before == "" && Spell(ps, "") == Strip(value)
    ensures Blank(lead) && Blank(trail)
    ensures value == lead + (ps[0].sign + (ps[0].after + (RollText(ps[0].roll) + Spell(ps[1..], trail))))
  {
    lead := StripLeftSplit(value);
    trail := StripRightSplit(StripLeft(value));
    SpellAppend(ps, trail);
    SpellFirst(ps, trail);
  }

  /** On the text as given, outer space and all, the searches find the terms of its one reading. */
  lemma SearchesFindTheTerms(value: string, ps: seq<Piece>)
    requires ReadExpression(Strip(value)) == Some(ps)
    ensures FoundDice(value) == DiceOf(ps) && FoundConstants(value, true) == ConstantsOf(ps)
  {
    ReadIsSpelled(Strip(value));
    var lead, trail := StrippedSpace(value, ps);
    TailEnds(ps[1..], trail);
    DiceInPiece(lead, ps[0].sign, ps[0].after, ps[0].roll, Spell(ps[1..], trail));
    DiceAreFound(ps[1..], trail);
    FirstConstant(lead, ps[0].sign, ps[0].after, ps[0].roll, Spell(ps[1..], trail));
    ConstantsAreFound(ps[1..], trail);
  }
}
