/** The server's damage expressions (python/vtt_orchestrator/server.py) under the client's dice notation
    (client/src/api/dice_notation.ts): which of them the client reads too, and that it reads the same terms. */
module DamageInClient {
  import opened Text
  import opened DiceGrammar
  import S = DiceSpelling
  import D = DamageExpression
  import V = DamageValidator

  ghost function ClientTerm(p: D.Piece): Term {
    match p.roll
    case Dice(count, sides) => Term.Dice(S.SignMeaning(p.sign), V.DiceNumber(count), NumberOf(sides), Plain)
    case Flat(digits) => Constant(S.SignMeaning(p.sign), NumberOf(digits))
  }

  ghost function ClientTerms(ps: seq<D.Piece>): seq<Term> {
    if ps == [] then [] else [ClientTerm(ps[0])] + ClientTerms(ps[1..])
  }

  ghost predicate ZeroDice(roll: D.Roll) {
    roll.Dice? && V.DiceNumber(roll.count) == 0
  }

  /** Some term asks for no dice at all, as in "0d6". */
  ghost predicate HasZeroDice(ps: seq<D.Piece>) {
    ps != [] && (ZeroDice(ps[0].roll) || HasZeroDice(ps[1..]))
  }

  /** All of Python's white space in the text is white space to JavaScript; U+001C to U+001F and U+0085 are not. */
  ghost predicate SharedSpace(s: string) {
    forall i :: 0 <= i < |s| ==> (IsPythonSpace(s[i]) ==> IsSpace(s[i]))
  }

  ghost predicate GapsShared(ps: seq<D.Piece>) {
    ps != [] ==> S.Blank(ps[0].before) && S.Blank(ps[0].after) && GapsShared(ps[1..])
  }

  /** Every count and die within what the validator lets through. */
  ghost predicate Fits(roll: D.Roll) {
    && V.RollAllowed(roll)
    && (roll.Dice? ==> V.DiceNumber(roll.count) <= D.MAX_TOTAL_DICE)
  }

  ghost predicate AllFit(ps: seq<D.Piece>) {
    ps != [] ==> Fits(ps[0].roll) && AllFit(ps[1..])
  }

  lemma {:induction false} LimitsFit(ps: seq<D.Piece>, total: nat)
    requires V.EachAllowed(ps) && total + V.TotalDice(ps) <= D.MAX_TOTAL_DICE
    ensures AllFit(ps)
  {
    if ps != [] {
      LimitsFit(ps[1..], total + if ps[0].roll.Dice? then V.DiceNumber(ps[0].roll.count) else 0);
    }
  }

  // ---------------------------------------------------------------- one term

  lemma CountReads(gap: string, count: string, afterD: string)
    requires S.Blank(gap) && AllDigits(count) && V.DiceNumber(count) <= D.MAX_TOTAL_DICE
    ensures var r := ReadNumber(gap + (count + (['d'] + afterD)));
            && r.Ok?
            && r.value.0 == (if count == "" then None else Some(NumberOf(count)))
            && SkipSpace(r.value.1) == ['d'] + afterD
  {
    assert "" + (['d'] + afterD) == ['d'] + afterD;
    S.ReadCount(gap, count, "", 'd', afterD);
  }

  lemma NoDice(number: string, sign: Sign, afterCount: string, afterD: string, sides: nat, tail: string)
    requires ReadNumber(number) == Ok((Some(0), afterCount)) && SkipSpace(afterCount) == ['d'] + afterD
    requires ReadNumber(afterD) == Ok((Some(sides), tail))
    ensures ReadTerm(number, sign) == Err(CountOutOfRange)
  {
    assert (['d'] + afterD)[0] == 'd' && (['d'] + afterD)[1..] == afterD;
  }

  lemma SidesRead(sides: string, rest: string)
    requires sides != "" && AllDigits(sides) && NumberOf(sides) <= MAX_DIE_SIDES && S.Boundary(rest)
    ensures ReadNumber(sides + rest) == Ok((Some(NumberOf(sides)), rest))
  {
    S.SpaceIsNoDigit(rest);
    assert "" + (sides + rest) == sides + rest;
    S.ReadNumeral("", sides, rest, MAX_DIE_SIDES);
  }

  /** The count has been read up to the die letter; the die and what follows are still to come. */
  lemma DieReads(number: string, sign: Sign, count: Option<nat>, afterCount: string, sides: string, rest: string)
    requires ReadNumber(number) == Ok((count, afterCount)) && SkipSpace(afterCount) == ['d'] + (sides + rest)
    requires count.Some? ==> count.value <= D.MAX_TOTAL_DICE
    requires sides != "" && AllDigits(sides) && MIN_DIE_SIDES <= NumberOf(sides) <= MAX_DIE_SIDES && S.Boundary(rest)
    ensures ReadTerm(number, sign) ==
            if count == Some(0) then Err(CountOutOfRange)
            else Ok((Term.Dice(sign, if count.None? then 1 else count.value, NumberOf(sides), Plain), SkipSpace(rest)))
  {
    SidesRead(sides, rest);
    if count == Some(0) {
      NoDice(number, sign, afterCount, sides + rest, NumberOf(sides), rest);
    } else {
      NoSuffixes(rest);
      S.ReadDice(number, sign, count, 'd', afterCount, sides + rest, NumberOf(sides), rest, Plain, SkipSpace(rest));
    }
  }

  lemma DiceRegrouped(gap: string, count: string, sides: string, rest: string)
    ensures gap + (D.RollText(D.Dice(count, sides)) + rest) == gap + (count + (['d'] + (sides + rest)))
  {
  }

  lemma DiceReads(gap: string, roll: D.Roll, sign: Sign, rest: string)
    requires S.Blank(gap) && D.ValidRoll(roll) && Fits(roll) && roll.Dice? && S.Boundary(rest)
    ensures ReadTerm(gap + (D.RollText(roll) + rest), sign) ==
            if ZeroDice(roll) then Err(CountOutOfRange)
            else Ok((Term.Dice(sign, V.DiceNumber(roll.count), NumberOf(roll.sides), Plain), SkipSpace(rest)))
  {
    hide ReadTerm, ReadNumber, SkipSpace, D.RollText;
    DiceRegrouped(gap, roll.count, roll.sides, rest);
    CountReads(gap, roll.count, roll.sides + rest);
    var number := gap + (roll.count + (['d'] + (roll.sides + rest)));
    var (count, afterCount) := ReadNumber(number).value;
    DieReads(number, sign, count, afterCount, roll.sides, rest);
  }

  lemma NoSuffixes(rest: string)
    requires S.Boundary(rest)
    ensures ReadSuffixes(rest, Plain) == Ok((Plain, SkipSpace(rest)))
  {
    S.ReadWrittenSuffixes([], Plain, rest);
  }

  lemma RollReads(gap: string, roll: D.Roll, sign: string, rest: string)
    requires S.Blank(gap) && D.ValidRoll(roll) && Fits(roll) && S.Boundary(rest)
    ensures ReadTerm(gap + (D.RollText(roll) + rest), S.SignMeaning(sign)) ==
            if ZeroDice(roll) then Err(CountOutOfRange)
            else Ok((ClientTerm(D.Piece("", sign, gap, roll)), SkipSpace(rest)))
  {
    match roll
    case Dice(_, _) => DiceReads(gap, roll, S.SignMeaning(sign), rest);
    case Flat(digits) =>
      S.SpaceIsNoDigit(rest);
      S.ReadNumeral(gap, digits, rest, MAX_NUMBER);
      S.ReadConstant(gap + (digits + rest), S.SignMeaning(sign), rest, NumberOf(digits));
  }

  // ---------------------------------------------------------------- all terms

  lemma NextIsBoundary(ps: seq<D.Piece>)
    requires D.ValidTail(ps) && GapsShared(ps)
    ensures S.Boundary(D.Spell(ps, ""))
    ensures ps == [] ==> SkipSpace(D.Spell(ps, "")) == ""
    ensures ps != [] ==> var next := ps[0].after + (D.RollText(ps[0].roll) + D.Spell(ps[1..], ""));
                         SkipSpace(D.Spell(ps, "")) == [ps[0].sign[0]] + next && ps[0].sign[0] in "+-"
  {
    if ps != [] {
      var next := ps[0].after + (D.RollText(ps[0].roll) + D.Spell(ps[1..], ""));
      assert ps[0].sign == [ps[0].sign[0]];
      S.SkipBlank(ps[0].before, ps[0].sign + next);
    }
  }

  lemma FirstFails(s: string, sign: Sign)
    requires ReadTerm(s, sign).Err?
    ensures ReadTerms(s, sign).Err?
  {
  }

  lemma {:induction false} PiecesRead(gap: string, roll: D.Roll, sign: string, ps: seq<D.Piece>)
    requires S.Blank(gap) && D.ValidRoll(roll) && Fits(roll)
    requires D.ValidTail(ps) && GapsShared(ps) && AllFit(ps)
    ensures var r := ReadTerms(gap + (D.RollText(roll) + D.Spell(ps, "")), S.SignMeaning(sign));
            if ZeroDice(roll) || HasZeroDice(ps) then r.Err?
            else r == Ok([ClientTerm(D.Piece("", sign, gap, roll))] + ClientTerms(ps))
    decreases |ps|
  {
    var s := gap + (D.RollText(roll) + D.Spell(ps, ""));
    var term := ClientTerm(D.Piece("", sign, gap, roll));
    NextIsBoundary(ps);
    RollReads(gap, roll, sign, D.Spell(ps, ""));
    if ZeroDice(roll) {
      FirstFails(s, S.SignMeaning(sign));
    } else if ps == [] {
      S.ReadLast(s, S.SignMeaning(sign), term);
      assert [term] + ClientTerms(ps) == [term];
    } else {
      var p := ps[0];
      var next := p.after + (D.RollText(p.roll) + D.Spell(ps[1..], ""));
      S.ReadNext(s, S.SignMeaning(sign), term, p.sign[0], next);
      PiecesRead(p.after, p.roll, p.sign, ps[1..]);
    }
  }

  // ---------------------------------------------------------------- space the client does not know

  lemma SharedParts(a: string, b: string)
    ensures SharedSpace(a + b) <==> SharedSpace(a) && SharedSpace(b)
  {
    if SharedSpace(a + b) {
      forall i | 0 <= i < |a| ensures IsPythonSpace(a[i]) ==> IsSpace(a[i]) { assert (a + b)[i] == a[i]; }
      forall i | 0 <= i < |b| ensures IsPythonSpace(b[i]) ==> IsSpace(b[i]) { assert (a + b)[|a| + i] == b[i]; }
    }
  }

  lemma PieceShared(before: string, sign: string, after: string, text: string, rest: string)
    requires SharedSpace(before + (sign + (after + (text + rest))))
    ensures SharedSpace(before) && SharedSpace(after) && SharedSpace(rest)
  {
    SharedParts(before, sign + (after + (text + rest)));
    SharedParts(sign, after + (text + rest));
    SharedParts(after, text + rest);
    SharedParts(text, rest);
  }

  lemma {:induction false} SharedGaps(ps: seq<D.Piece>, rest: string)
    requires D.ValidTail(ps) && SharedSpace(D.Spell(ps, rest))
    ensures GapsShared(ps) && SharedSpace(rest)
  {
    if ps != [] {
      PieceShared(ps[0].before, ps[0].sign, ps[0].after, D.RollText(ps[0].roll), D.Spell(ps[1..], rest));
      SharedGaps(ps[1..], rest);
    }
  }

  lemma WordShared(s: string)
    requires S.Blank(s) || AllDigits(s) || forall i :: 0 <= i < |s| ==> s[i] in "+-dDkKhHlLrRoO<>!"
    ensures SharedSpace(s)
  {
  }

  lemma SuffixShared(x: S.SuffixText, rest: string)
    requires S.ValidSuffix(x) && SharedSpace(rest)
    ensures SharedSpace(S.WriteSuffix(x, rest))
  {
    WordShared(x.gap);
    match x
    case KeepText(gap, k, which, numberGap, digits) =>
      WordShared([k, which]); WordShared(numberGap); WordShared(digits);
      SharedParts(digits, rest);
      SharedParts(numberGap, digits + rest);
      SharedParts([k, which], numberGap + (digits + rest));
      SharedParts(gap, [k, which] + (numberGap + (digits + rest)));
    case RerollText(gap, r, o, comparator, numberGap, digits) =>
      WordShared([r, o, comparator]); WordShared(numberGap); WordShared(digits);
      SharedParts(digits, rest);
      SharedParts(numberGap, digits + rest);
      SharedParts([r, o, comparator], numberGap + (digits + rest));
      SharedParts(gap, [r, o, comparator] + (numberGap + (digits + rest)));
    case ExplodeText(gap) =>
      SharedParts(['!'], rest);
      SharedParts(gap, ['!'] + rest);
  }

  lemma {:induction false} SuffixesShared(xs: seq<S.SuffixText>, mods: Mods, rest: string)
    requires S.ValidSuffixes(xs, mods) && SharedSpace(rest)
    ensures SharedSpace(S.WriteSuffixes(xs, rest))
  {
    if xs != [] {
      SuffixesShared(xs[1..], S.WithSuffix(mods, xs[0]), rest);
      SuffixShared(xs[0], S.WriteSuffixes(xs[1..], rest));
    }
  }

  lemma TermShared(x: S.TermText, rest: string)
    requires S.ValidTerm(x) && SharedSpace(rest)
    ensures SharedSpace(S.WriteTerm(x, rest))
  {
    match x
    case ConstantText(gap, digits) =>
      WordShared(gap); WordShared(digits);
      SharedParts(digits, rest);
      SharedParts(gap, digits + rest);
    case DiceText(gap, digits, dGap, d, sidesGap, sides, suffixes) =>
      var tail := S.WriteSuffixes(suffixes, rest);
      SuffixesShared(suffixes, Plain, rest);
      WordShared(gap); WordShared(digits); WordShared(dGap); WordShared([d]); WordShared(sidesGap); WordShared(sides);
      SharedParts(sides, tail);
      SharedParts(sidesGap, sides + tail);
      SharedParts([d], sidesGap + (sides + tail));
      SharedParts(dGap, [d] + (sidesGap + (sides + tail)));
      SharedParts(digits, dGap + ([d] + (sidesGap + (sides + tail))));
      SharedParts(gap, digits + (dGap + ([d] + (sidesGap + (sides + tail)))));
  }

  lemma SignedShared(x: S.SignedText, rest: string)
    requires S.Blank(x.gap) && x.sign in {"", "+", "-"} && S.ValidTerm(x.term) && SharedSpace(rest)
    ensures SharedSpace(x.gap + (x.sign + S.WriteTerm(x.term, rest)))
  {
    WordShared(x.gap);
    WordShared(x.sign);
    TermShared(x.term, rest);
    SharedParts(x.sign, S.WriteTerm(x.term, rest));
    SharedParts(x.gap, x.sign + S.WriteTerm(x.term, rest));
  }

  lemma {:induction false} AllShared(xs: seq<S.SignedText>, rest: string)
    requires S.ValidAll(xs) && SharedSpace(rest)
    ensures SharedSpace(S.Write(xs, rest))
  {
    if xs != [] {
      AllShared(xs[1..], rest);
      SignedShared(xs[0], S.Write(xs[1..], rest));
    }
  }

  /** A text the client accepts holds none of the other white space. */
  lemma AcceptedIsShared(s: string)
    requires Parse(s).Ok?
    ensures SharedSpace(s)
  {
    var xs, trailing := S.ParsedIsSpelling(s);
    WordShared(trailing);
    AllShared(xs[1..], trailing);
    SignedShared(xs[0], S.Write(xs[1..], trailing));
  }

  // ---------------------------------------------------------------- the two languages

  lemma {:induction false} RollsEndSolid(text: string, roll: D.Roll, ps: seq<D.Piece>)
    requires D.ValidRoll(roll) && D.ValidTail(ps)
    ensures S.EndsSolid(text + (D.RollText(roll) + D.Spell(ps, "")))
    decreases |ps|
  {
    if ps == [] {
      assert D.RollText(roll) + D.Spell(ps, "") == D.RollText(roll);
      S.AppendEndsSolid(text, D.RollText(roll));
    } else {
      var p := ps[0];
      RollsEndSolid(p.after, p.roll, ps[1..]);
      S.AppendEndsSolid(p.sign, p.after + (D.RollText(p.roll) + D.Spell(ps[1..], "")));
      S.AppendEndsSolid(p.before, p.sign + (p.after + (D.RollText(p.roll) + D.Spell(ps[1..], ""))));
      S.AppendEndsSolid(D.RollText(roll), D.Spell(ps, ""));
      S.AppendEndsSolid(text, D.RollText(roll) + D.Spell(ps, ""));
    }
  }

  lemma TrimAround(lead: string, core: string, trail: string)
    requires S.Blank(lead) && S.Blank(trail) && S.EndsSolid(core)
    ensures SkipSpace(Trim(lead + (core + trail))) == SkipSpace(core)
  {
    S.SkipBlank(lead, core + trail);
    S.SkipSpaceEndsSolid(core, trail);
    S.TrimEndBlank(SkipSpace(core), trail);
    SkipSpaceTwice(core);
  }

  lemma RollStartsTerm(gap: string, roll: D.Roll, rest: string)
    requires S.Blank(gap) && D.ValidRoll(roll)
    ensures var t := SkipSpace(gap + (D.RollText(roll) + rest)); t != "" && t[0] !in "+-"
  {
    D.RollStart(roll, rest);
    S.SkipBlank(gap, D.RollText(roll) + rest);
  }

  lemma OuterSpace(lead: string, sign: string, after: string, text: string, inner: string, trail: string)
    ensures lead + (sign + (after + (text + (inner + trail)))) == lead + ((sign + (after + (text + inner))) + trail)
  {
  }

  /** The client's parse of a text whose space it knows. */
  lemma ParseOfShared(value: string, ps: seq<D.Piece>, lead: string, trail: string)
    requires D.ValidExpression(ps) && AllFit(ps) && D.Blank(lead) && D.Blank(trail) && SharedSpace(value)
    requires value == lead + (ps[0].sign + (ps[0].after + (D.RollText(ps[0].roll) + D.Spell(ps[1..], trail))))
    ensures if HasZeroDice(ps) then Parse(value).Err? else Parse(value) == Ok(ClientTerms(ps))
  {
    var p := ps[0];
    var body := p.after + (D.RollText(p.roll) + D.Spell(ps[1..], ""));
    PieceShared(lead, p.sign, p.after, D.RollText(p.roll), D.Spell(ps[1..], trail));
    SharedGaps(ps[1..], trail);
    D.SpellAppend(ps[1..], trail);
    OuterSpace(lead, p.sign, p.after, D.RollText(p.roll), D.Spell(ps[1..], ""), trail);
    RollsEndSolid(p.after, p.roll, ps[1..]);
    S.AppendEndsSolid(p.sign, body);
    TrimAround(lead, p.sign + body, trail);
    RollStartsTerm(p.after, p.roll, D.Spell(ps[1..], ""));
    S.ParseFrom(value, p.sign, body);
    PiecesRead(p.after, p.roll, p.sign, ps[1..]);
  }

  /** Of the texts the server accepts, the client reads exactly those that ask for no zero dice and use only
      white space JavaScript knows, and it reads the server's terms. */
  lemma ClientReadsTheSameTerms(value: string, ps: seq<D.Piece>)
    requires V.Validated(value) == Ok(value) && D.ValidExpression(ps) && D.Spell(ps, "") == Strip(value)
    ensures Parse(value).Ok? <==> !HasZeroDice(ps) && SharedSpace(value)
    ensures Parse(value).Ok? ==> Parse(value) == Ok(ClientTerms(ps))
  {
    D.SpellingIsRead(Strip(value), ps);
    V.LimitsHold(value, ps);
    V.EachAllowedIs(ps);
    LimitsFit(ps, 0);
    var lead, trail := D.StrippedSpace(value, ps);
    if SharedSpace(value) {
      ParseOfShared(value, ps, lead, trail);
    } else if Parse(value).Ok? {
      AcceptedIsShared(value);
    }
  }

  // ---------------------------------------------------------------- two texts the client refuses

  lemma StripDigitEnds(s: string)
    requires s != "" && !IsPythonSpace(s[0]) && !IsPythonSpace(s[|s| - 1])
    ensures Strip(s) == s
  {
  }

  const ZeroDiceTerms := [D.Piece("", "", "", D.Dice("0", "6"))]

  lemma ZeroDiceReading()
    ensures D.ValidExpression(ZeroDiceTerms) && V.WithinLimits(ZeroDiceTerms) && HasZeroDice(ZeroDiceTerms)
    ensures D.Spell(ZeroDiceTerms, "") == "0d6"
  {
    assert ZeroDiceTerms[1..] == [];
    assert NumberOf("0") == 0 && NumberOf("6") == 6 by { assert "0"[..0] == "" && "6"[..0] == ""; }
    assert V.TotalDice(ZeroDiceTerms) == 0;
  }

  /** "0d6" passes on the server and is refused by the client. */
  lemma ZeroDiceExample()
    ensures V.Validated("0d6") == Ok("0d6") && Parse("0d6").Err?
  {
    hide D.ValidExpression, D.Spell, V.WithinLimits, V.Validated, HasZeroDice, Parse, Strip;
    ZeroDiceReading();
    StripDigitEnds("0d6");
    V.PassesExactlyWithinLimits("0d6");
    ClientReadsTheSameTerms("0d6", ZeroDiceTerms);
  }

  const NextLine := "1d6\U{85}+1"
  const PlusOne := [D.Piece("\U{85}", "+", "", D.Flat("1"))]
  const NextLineTerms := [D.Piece("", "", "", D.Dice("1", "6"))] + PlusOne

  lemma NextLineReading()
    ensures D.ValidExpression(NextLineTerms) && V.WithinLimits(NextLineTerms)
    ensures D.Spell(NextLineTerms, "") == NextLine
  {
    assert NextLineTerms[1..] == PlusOne && PlusOne[1..] == [];
    assert NumberOf("1") == 1 && NumberOf("6") == 6 by { assert "1"[..0] == "" && "6"[..0] == ""; }
    assert V.TotalDice(PlusOne) == 0 && V.TotalDice(NextLineTerms) == 1;
    assert D.Spell(PlusOne, "") == "\U{85}+1";
  }

  /** So is a text with a next-line character between two terms. */
  lemma NextLineExample()
    ensures V.Validated(NextLine) == Ok(NextLine) && Parse(NextLine).Err?
  {
    hide D.ValidExpression, D.Spell, V.WithinLimits, V.Validated, Parse, Strip;
    NextLineReading();
    StripDigitEnds(NextLine);
    assert NextLine[3] == '\U{85}' && !SharedSpace(NextLine);
    V.PassesExactlyWithinLimits(NextLine);
    ClientReadsTheSameTerms(NextLine, NextLineTerms);
  }
}
