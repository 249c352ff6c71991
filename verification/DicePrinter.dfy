/** Printing terms the way the roller labels them (client/src/api/dice_notation.ts), and the
    round trips between printing and parsing. */
module DicePrinter {
  import opened Text
  import opened DiceGrammar
  import opened DiceSpelling

  function RenderKeep(keep: Option<Keep>): string {
    if keep.None? then "" else "k" + (if keep.value.highest then "h" else "l") + Decimal(keep.value.n)
  }

  function RenderReroll(reroll: Option<Reroll>): string {
    if reroll.None? then ""
    else "ro" + (if reroll.value.comparator.Below? then "<" else ">") + Decimal(reroll.value.threshold)
  }

  function RenderTerm(term: Term): string {
    match term
    case Constant(_, amount) => Decimal(amount)
    case Dice(_, count, sides, mods) =>
      Decimal(count) + "d" + Decimal(sides) + RenderKeep(mods.keep) + RenderReroll(mods.reroll) +
      (if mods.explode then "!" else "")
  }

  function RenderSign(sign: Sign): string {
    if sign.Minus? then "-" else "+"
  }

  /** Each term as its sign and its rendering. */
  function Print(terms: seq<Term>): string {
    if terms == [] then "" else RenderSign(terms[0].sign) + RenderTerm(terms[0]) + Print(terms[1..])
  }

  // ---------------------------------------------------------------- a printed term is a spelling

  ghost function KeepSpelling(keep: Option<Keep>): seq<SuffixText> {
    if keep.None? then [] else [KeepText("", 'k', if keep.value.highest then 'h' else 'l', "", Decimal(keep.value.n))]
  }

  ghost function RerollSpelling(reroll: Option<Reroll>): seq<SuffixText> {
    if reroll.None? then []
    else [RerollText("", 'r', 'o', if reroll.value.comparator.Below? then '<' else '>', "",
                     Decimal(reroll.value.threshold))]
  }

  ghost function ExplodeSpelling(explode: bool): seq<SuffixText> {
    if explode then [ExplodeText("")] else []
  }

  ghost function TermSpelling(term: Term): TermText {
    match term
    case Constant(_, amount) => ConstantText("", Decimal(amount))
    case Dice(_, count, sides, mods) =>
      DiceText("", Decimal(count), "", 'd', "", Decimal(sides),
               KeepSpelling(mods.keep) + (RerollSpelling(mods.reroll) + ExplodeSpelling(mods.explode)))
  }

  ghost function Spelling(terms: seq<Term>): seq<SignedText> {
    if terms == [] then []
    else [SignedText("", RenderSign(terms[0].sign), TermSpelling(terms[0]))] + Spelling(terms[1..])
  }

  lemma {:induction false} WriteConcat(xs: seq<SuffixText>, ys: seq<SuffixText>, rest: string)
    ensures WriteSuffixes(xs + ys, rest) == WriteSuffixes(xs, WriteSuffixes(ys, rest))
  {
    if xs == [] {
      assert xs + ys == ys;
    } else {
      assert (xs + ys)[1..] == xs[1..] + ys;
      WriteConcat(xs[1..], ys, rest);
    }
  }

  lemma WriteKeep(keep: Option<Keep>, rest: string)
    ensures WriteSuffixes(KeepSpelling(keep), rest) == RenderKeep(keep) + rest
  {
    if keep.Some? {
      var h, n := if keep.value.highest then 'h' else 'l', Decimal(keep.value.n);
      assert "" + (['k', h] + ("" + (n + rest))) == "k" + [h] + n + rest;
    }
  }

  lemma WriteReroll(reroll: Option<Reroll>, rest: string)
    ensures WriteSuffixes(RerollSpelling(reroll), rest) == RenderReroll(reroll) + rest
  {
    if reroll.Some? {
      var c, n := if reroll.value.comparator.Below? then '<' else '>', Decimal(reroll.value.threshold);
      assert "" + (['r', 'o', c] + ("" + (n + rest))) == "ro" + [c] + n + rest;
    }
  }

  lemma WriteExplode(explode: bool, rest: string)
    ensures WriteSuffixes(ExplodeSpelling(explode), rest) == (if explode then "!" else "") + rest
  {
  }

  lemma DicePieces(count: string, sides: string, keep: string, reroll: string, bang: string, rest: string)
    ensures "" + (count + ("" + (['d'] + ("" + (sides + (keep + (reroll + (bang + rest)))))))) ==
            count + "d" + sides + keep + reroll + bang + rest
  {
    assert keep + (reroll + (bang + rest)) == (keep + reroll + bang) + rest;
    assert count + (['d'] + (sides + ((keep + reroll + bang) + rest))) ==
           (count + ['d'] + sides) + (keep + reroll + bang) + rest;
    assert (count + ['d'] + sides) + (keep + reroll + bang) == count + "d" + sides + keep + reroll + bang;
  }

  lemma WriteRendered(term: Term, rest: string)
    ensures WriteTerm(TermSpelling(term), rest) == RenderTerm(term) + rest
  {
    match term
    case Constant(_, amount) =>
    case Dice(_, count, sides, mods) =>
      var bang := if mods.explode then "!" else "";
      WriteExplode(mods.explode, rest);
      WriteConcat(RerollSpelling(mods.reroll), ExplodeSpelling(mods.explode), rest);
      WriteReroll(mods.reroll, bang + rest);
      WriteConcat(KeepSpelling(mods.keep), RerollSpelling(mods.reroll) + ExplodeSpelling(mods.explode), rest);
      WriteKeep(mods.keep, RenderReroll(mods.reroll) + (bang + rest));
      DicePieces(Decimal(count), Decimal(sides), RenderKeep(mods.keep), RenderReroll(mods.reroll), bang, rest);
  }

  lemma {:induction false} WritePrinted(terms: seq<Term>)
    ensures Write(Spelling(terms), "") == Print(terms)
  {
    if terms != [] {
      WritePrinted(terms[1..]);
      WriteFirst(SignedText("", RenderSign(terms[0].sign), TermSpelling(terms[0])), Spelling(terms[1..]), "");
      WriteRendered(terms[0], Print(terms[1..]));
      ThreePieces(RenderSign(terms[0].sign), RenderTerm(terms[0]), Print(terms[1..]));
    }
  }

  lemma ThreePieces(a: string, b: string, c: string)
    ensures "" + (a + (b + c)) == a + b + c
  {
  }

  // ---------------------------------------------------------------- and means the term

  lemma DecimalNumeral(n: nat, limit: nat)
    requires n <= limit
    ensures Numeral(Decimal(n), limit) && NumberOf(Decimal(n)) == n
  {
    NumberOfDecimal(n);
  }

  lemma FirstSuffix(mods: Mods, x: SuffixText, xs: seq<SuffixText>)
    requires ValidSuffixes([x], mods) && ValidSuffixes(xs, WithSuffix(mods, x))
    ensures ValidSuffixes([x] + xs, mods)
    ensures WithSuffixes(mods, [x] + xs) == WithSuffixes(WithSuffix(mods, x), xs)
  {
    assert ([x] + xs)[1..] == xs && ([x] + xs)[0] == x;
  }

  lemma ExplodeMeans(mods: Mods, explode: bool)
    requires !mods.explode
    ensures ValidSuffixes(ExplodeSpelling(explode), mods)
    ensures WithSuffixes(mods, ExplodeSpelling(explode)) == mods.(explode := explode)
  {
    if explode {
      FirstSuffix(mods, ExplodeText(""), []);
      assert [ExplodeText("")] + [] == ExplodeSpelling(explode);
    }
  }

  lemma RerollMeans(mods: Mods, reroll: Option<Reroll>, explode: bool)
    requires mods.reroll.None? && !mods.explode && (reroll.Some? ==> reroll.value.threshold <= MAX_DIE_SIDES)
    ensures var xs := RerollSpelling(reroll) + ExplodeSpelling(explode);
            ValidSuffixes(xs, mods) && WithSuffixes(mods, xs) == mods.(reroll := reroll, explode := explode)
  {
    var after := mods.(reroll := reroll);
    ExplodeMeans(after, explode);
    if reroll.Some? {
      DecimalNumeral(reroll.value.threshold, MAX_DIE_SIDES);
      FirstSuffix(mods, RerollSpelling(reroll)[0], ExplodeSpelling(explode));
    } else {
      assert RerollSpelling(reroll) + ExplodeSpelling(explode) == ExplodeSpelling(explode);
    }
  }

  lemma SuffixesMean(mods: Mods)
    requires ModsInRange(mods)
    ensures var xs := KeepSpelling(mods.keep) + (RerollSpelling(mods.reroll) + ExplodeSpelling(mods.explode));
            ValidSuffixes(xs, Plain) && WithSuffixes(Plain, xs) == mods
  {
    hide Decimal, RerollSpelling, ExplodeSpelling;
    var tail := RerollSpelling(mods.reroll) + ExplodeSpelling(mods.explode);
    RerollMeans(Plain.(keep := mods.keep), mods.reroll, mods.explode);
    if mods.keep.Some? {
      DecimalNumeral(mods.keep.value.n, MAX_DICE_COUNT);
      FirstSuffix(Plain, KeepSpelling(mods.keep)[0], tail);
    } else {
      assert KeepSpelling(mods.keep) + tail == tail;
    }
  }

  lemma TermMeans(term: Term)
    requires InRange(term)
    ensures ValidTerm(TermSpelling(term)) && TermMeaning(TermSpelling(term), term.sign) == term
  {
    match term
    case Constant(_, amount) => DecimalNumeral(amount, MAX_NUMBER);
    case Dice(_, count, sides, mods) =>
      DecimalNumeral(count, MAX_DICE_COUNT);
      DecimalNumeral(sides, MAX_DIE_SIDES);
      SuffixesMean(mods);
  }

  lemma {:induction false} SpellingMeans(terms: seq<Term>)
    requires AllInRange(terms)
    ensures ValidAll(Spelling(terms)) && Meaning(Spelling(terms)) == terms
  {
    if terms != [] {
      TermMeans(terms[0]);
      SpellingMeans(terms[1..]);
      assert Spelling(terms)[1..] == Spelling(terms[1..]);
    }
  }

  // ---------------------------------------------------------------- round trips

  /** Printing a list of terms in range and parsing it gives the list back. */
  lemma ParsePrint(terms: seq<Term>)
    requires terms != [] && AllInRange(terms)
    ensures Parse(Print(terms)) == Ok(terms)
  {
    SpellingMeans(terms);
    WritePrinted(terms);
    SpellingIsParsed(Spelling(terms), "");
  }

  /** Printing normalises: whatever spelling was accepted, its printed form is read the same. */
  lemma ParsePrintParse(text: string)
    requires Parse(text).Ok?
    ensures Parse(Print(Parse(text).value)) == Parse(text)
  {
    ParseInRange(text);
    ParsePrint(Parse(text).value);
  }

  /** Two different lists in range never print alike. */
  lemma PrintIsInjective(a: seq<Term>, b: seq<Term>)
    requires a != [] && AllInRange(a) && b != [] && AllInRange(b)
    ensures Print(a) == Print(b) <==> a == b
  {
    ParsePrint(a);
    ParsePrint(b);
  }

  // ---------------------------------------------------------------- the printed form

  /** What stands before a place: the last character, 'z' for a zero that begins a number, ' ' at the start. */
  ghost function Ends(s: string): char {
    if s == "" then ' '
    else
      var before, c := Ends(s[..|s| - 1]), s[|s| - 1];
      if c == '0' && !IsDigit(before) then 'z' else c
  }

  /** Which characters may follow: signs stand first and behind complete terms, every "d" behind a number, no number
      has a zero in front of another digit, and there are no capitals and no white space. */
  ghost predicate MayFollow(before: char, c: char) {
    if before == ' ' || before == '!' then c in "+-"
    else if before == 'z' then c in "dkr!+-"
    else if IsDigit(before) then IsDigit(c) || c in "dkr!+-"
    else if before == 'k' then c in "hl"
    else if before == 'r' then c == 'o'
    else if before == 'o' then c in "<>"
    else before in "+-dhl<>" && IsDigit(c)
  }

  ghost predicate Plainly(s: string) {
    s == "" || (Plainly(s[..|s| - 1]) && MayFollow(Ends(s[..|s| - 1]), s[|s| - 1]))
  }

  ghost predicate AfterNumber(s: string) {
    s != "" && (Ends(s) == 'z' || IsDigit(Ends(s)))
  }

  lemma OneMore(s: string, c: char)
    ensures Plainly(s + [c]) <==> Plainly(s) && MayFollow(Ends(s), c)
    ensures Ends(s + [c]) == if c == '0' && !IsDigit(Ends(s)) then 'z' else c
  {
    assert (s + [c])[..|s|] == s;
  }

  lemma {:induction false} NumberPlainly(s: string, n: nat)
    requires Plainly(s) && Ends(s) in "+-dhl<>"
    ensures Plainly(s + Decimal(n)) && AfterNumber(s + Decimal(n))
    ensures n > 0 ==> IsDigit(Ends(s + Decimal(n)))
  {
    if n < 10 {
      OneMore(s, DigitChar(n));
    } else {
      NumberPlainly(s, n / 10);
      assert s + Decimal(n) == (s + Decimal(n / 10)) + [DigitChar(n % 10)];
      OneMore(s + Decimal(n / 10), DigitChar(n % 10));
    }
  }

  lemma Behind(a: string, b: string, c: string)
    ensures a + (b + c) == (a + b) + c
  {
  }

  /** A character and a number behind it. */
  lemma MarkedPlainly(s: string, c: char, n: nat)
    requires Plainly(s) && MayFollow(Ends(s), c) && c in "dhl<>"
    ensures Plainly(s + ([c] + Decimal(n))) && AfterNumber(s + ([c] + Decimal(n)))
  {
    hide Plainly;
    OneMore(s, c);
    NumberPlainly(s + [c], n);
    Behind(s, [c], Decimal(n));
  }

  lemma KeepPlainly(s: string, keep: Option<Keep>)
    requires Plainly(s) && AfterNumber(s)
    ensures Plainly(s + RenderKeep(keep)) && AfterNumber(s + RenderKeep(keep))
  {
    hide Plainly, Ends, Decimal;
    if keep.None? {
      assert s + "" == s;
    } else {
      var h := if keep.value.highest then 'h' else 'l';
      OneMore(s, 'k');
      MarkedPlainly(s + ['k'], h, keep.value.n);
      Behind(s, ['k'], [h] + Decimal(keep.value.n));
      Behind(['k'], [h], Decimal(keep.value.n));
      assert RenderKeep(keep) == ['k'] + [h] + Decimal(keep.value.n);
    }
  }

  lemma RerollPlainly(s: string, reroll: Option<Reroll>)
    requires Plainly(s) && AfterNumber(s)
    ensures Plainly(s + RenderReroll(reroll)) && AfterNumber(s + RenderReroll(reroll))
  {
    hide Plainly, Ends, Decimal;
    if reroll.None? {
      assert s + "" == s;
    } else {
      var c, n := if reroll.value.comparator.Below? then '<' else '>', Decimal(reroll.value.threshold);
      OneMore(s, 'r');
      OneMore(s + ['r'], 'o');
      assert s + ['r', 'o'] == (s + ['r']) + ['o'];
      MarkedPlainly(s + ['r', 'o'], c, reroll.value.threshold);
      Behind(s, ['r', 'o'], [c] + n);
      Behind(['r', 'o'], [c], n);
      assert RenderReroll(reroll) == ['r', 'o'] + [c] + n;
    }
  }

  lemma PoolPlainly(s: string, count: nat, sides: nat)
    requires Plainly(s) && Ends(s) in "+-"
    ensures Plainly(s + (Decimal(count) + ['d'] + Decimal(sides)))
    ensures AfterNumber(s + (Decimal(count) + ['d'] + Decimal(sides)))
  {
    hide Plainly, Ends, Decimal;
    NumberPlainly(s, count);
    MarkedPlainly(s + Decimal(count), 'd', sides);
    Behind(s, Decimal(count), ['d'] + Decimal(sides));
    Behind(Decimal(count), ['d'], Decimal(sides));
  }

  lemma TermPlainly(s: string, term: Term)
    requires Plainly(s) && Ends(s) in "+-"
    ensures Plainly(s + RenderTerm(term)) && (AfterNumber(s + RenderTerm(term)) || Ends(s + RenderTerm(term)) == '!')
  {
    hide Plainly, Ends, Decimal, RenderKeep, RenderReroll;
    match term
    case Constant(_, amount) => NumberPlainly(s, amount);
    case Dice(_, count, sides, mods) =>
      var pool := Decimal(count) + ['d'] + Decimal(sides);
      var keep, reroll := RenderKeep(mods.keep), RenderReroll(mods.reroll);
      PoolPlainly(s, count, sides);
      KeepPlainly(s + pool, mods.keep);
      Behind(s, pool, keep);
      RerollPlainly(s + (pool + keep), mods.reroll);
      Behind(s, pool + keep, reroll);
      OneMore(s + (pool + keep + reroll), '!');
      Behind(s, pool + keep + reroll, if mods.explode then "!" else "");
      assert RenderTerm(term) == pool + keep + reroll + if mods.explode then "!" else "";
      assert mods.explode || s + (pool + keep + reroll) + "" == s + (pool + keep + reroll);
  }

  lemma {:induction false} TermsPlainly(s: string, terms: seq<Term>)
    requires Plainly(s) && (s == "" || AfterNumber(s) || Ends(s) == '!')
    ensures Plainly(s + Print(terms))
    decreases terms
  {
    hide Plainly, Ends, RenderTerm;
    if terms == [] {
      assert s + "" == s;
    } else {
      var sign, term := RenderSign(terms[0].sign), RenderTerm(terms[0]);
      StartsPlainly(s, sign[0]);
      TermPlainly(s + sign, terms[0]);
      TermsPlainly(s + sign + term, terms[1..]);
      Behind(s, sign + term, Print(terms[1..]));
      Behind(s, sign, term);
    }
  }

  lemma StartsPlainly(s: string, sign: char)
    requires Plainly(s) && (s == "" || AfterNumber(s) || Ends(s) == '!') && sign in "+-"
    ensures Plainly(s + [sign]) && Ends(s + [sign]) == sign
  {
    OneMore(s, sign);
  }

  /** Every list prints in one plain form: each term with its sign, each pool with its count, small letters, "ro" for a
      reroll, an explosion last, no white space and no leading zeros. */
  lemma PrintIsPlain(terms: seq<Term>)
    ensures Plainly(Print(terms))
  {
    TermsPlainly("", terms);
    assert "" + Print(terms) == Print(terms);
  }
}
