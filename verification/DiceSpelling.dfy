/** The spellings of a dice expression, independently of any parser: the written grammar of
    client/src/api/dice_notation.ts with every freedom it allows (spaces between tokens, letter
    case, suffix order, leading zeros, omitted counts). The parser accepts exactly these. */
module DiceSpelling {
  import opened Text
  import opened DiceGrammar

  /** One suffix as written, with the space in front of it. */
  datatype SuffixText =
    | KeepText(gap: string, k: char, which: char, numberGap: string, digits: string)
    | RerollText(gap: string, r: char, o: char, comparator: char, numberGap: string, digits: string)
    | ExplodeText(gap: string)

  datatype TermText =
    | ConstantText(gap: string, digits: string)
    | DiceText(gap: string, digits: string, dGap: string, d: char, sidesGap: string, sides: string,
               suffixes: seq<SuffixText>)

  /** A term with its sign; only the first term of an expression may leave the sign out. */
  datatype SignedText = SignedText(gap: string, sign: string, term: TermText)

  // ---------------------------------------------------------------- what is written

  ghost function WriteSuffix(x: SuffixText, rest: string): string {
    match x
    case KeepText(gap, k, which, numberGap, digits) => gap + ([k, which] + (numberGap + (digits + rest)))
    case RerollText(gap, r, o, comparator, numberGap, digits) =>
      gap + ([r, o, comparator] + (numberGap + (digits + rest)))
    case ExplodeText(gap) => gap + (['!'] + rest)
  }

  ghost function WriteSuffixes(xs: seq<SuffixText>, rest: string): string {
    if xs == [] then rest else WriteSuffix(xs[0], WriteSuffixes(xs[1..], rest))
  }

  ghost function WriteTerm(x: TermText, rest: string): string {
    match x
    case ConstantText(gap, digits) => gap + (digits + rest)
    case DiceText(gap, digits, dGap, d, sidesGap, sides, suffixes) =>
      gap + (digits + (dGap + ([d] + (sidesGap + (sides + WriteSuffixes(suffixes, rest))))))
  }

  ghost function Write(xs: seq<SignedText>, rest: string): string {
    if xs == [] then rest else xs[0].gap + (xs[0].sign + WriteTerm(xs[0].term, Write(xs[1..], rest)))
  }

  // ---------------------------------------------------------------- what is allowed

  ghost predicate Blank(s: string) {
    forall i :: 0 <= i < |s| ==> IsSpace(s[i])
  }

  ghost predicate Numeral(s: string, limit: nat) {
    s != "" && AllDigits(s) && NumberOf(s) <= limit
  }

  ghost predicate ValidSuffix(x: SuffixText) {
    match x
    case KeepText(gap, k, which, numberGap, digits) =>
      && Blank(gap) && k in "kK" && which in "hHlL" && Blank(numberGap)
      && (Numeral(digits, MAX_DICE_COUNT) || (digits == "" && numberGap == ""))
    case RerollText(gap, r, o, comparator, numberGap, digits) =>
      && Blank(gap) && r in "rR" && o in "oO" && comparator in "<>" && Blank(numberGap)
      && Numeral(digits, MAX_DIE_SIDES)
    case ExplodeText(gap) => Blank(gap)
  }

  /** Each kind of suffix at most once, in any order. */
  ghost predicate ValidSuffixes(xs: seq<SuffixText>, mods: Mods) {
    xs != [] ==>
      && ValidSuffix(xs[0])
      && (match xs[0]
          case KeepText(_, _, _, _, _) => mods.keep.None?
          case RerollText(_, _, _, _, _, _) => mods.reroll.None?
          case ExplodeText(_) => !mods.explode)
      && ValidSuffixes(xs[1..], WithSuffix(mods, xs[0]))
  }

  ghost predicate ValidTerm(x: TermText) {
    match x
    case ConstantText(gap, digits) => Blank(gap) && Numeral(digits, MAX_NUMBER)
    case DiceText(gap, digits, dGap, d, sidesGap, sides, suffixes) =>
      && Blank(gap) && Blank(dGap) && d in "dD" && Blank(sidesGap)
      && ((Numeral(digits, MAX_DICE_COUNT) && NumberOf(digits) >= 1) || (digits == "" && dGap == ""))
      && Numeral(sides, MAX_DIE_SIDES) && NumberOf(sides) >= MIN_DIE_SIDES
      && ValidSuffixes(suffixes, Plain)
  }

  ghost predicate ValidSigned(x: SignedText) {
    Blank(x.gap) && ValidTerm(x.term) && (x.sign == "+" || x.sign == "-")
  }

  ghost predicate ValidAll(xs: seq<SignedText>) {
    xs != [] ==> ValidSigned(xs[0]) && ValidAll(xs[1..])
  }

  /** A whole expression: the first sign may be missing. */
  ghost predicate Valid(xs: seq<SignedText>) {
    && xs != []
    && Blank(xs[0].gap) && ValidTerm(xs[0].term) && xs[0].sign in {"", "+", "-"}
    && ValidAll(xs[1..])
  }

  // ---------------------------------------------------------------- what it means

  ghost function WithSuffix(mods: Mods, x: SuffixText): Mods {
    match x
    case KeepText(_, _, which, _, digits) =>
      mods.(keep := Some(Keep(which in "hH", if digits == "" then 1 else NumberOf(digits))))
    case RerollText(_, _, _, comparator, _, digits) =>
      mods.(reroll := Some(Reroll(if comparator == '<' then Below else Above, NumberOf(digits))))
    case ExplodeText(_) => mods.(explode := true)
  }

  ghost function WithSuffixes(mods: Mods, xs: seq<SuffixText>): Mods
    decreases xs
  {
    if xs == [] then mods else WithSuffixes(WithSuffix(mods, xs[0]), xs[1..])
  }

  ghost function TermMeaning(x: TermText, sign: Sign): Term {
    match x
    case ConstantText(_, digits) => Constant(sign, NumberOf(digits))
    case DiceText(_, digits, _, _, _, sides, suffixes) =>
      Dice(sign, if digits == "" then 1 else NumberOf(digits), NumberOf(sides), WithSuffixes(Plain, suffixes))
  }

  ghost function SignMeaning(sign: string): Sign {
    if sign == "-" then Minus else Plus
  }

  ghost function Meaning(xs: seq<SignedText>): seq<Term> {
    if xs == [] then [] else [TermMeaning(xs[0].term, SignMeaning(xs[0].sign))] + Meaning(xs[1..])
  }

  // ---------------------------------------------------------------- reading one piece

  lemma {:induction false} SkipBlank(gap: string, rest: string)
    requires Blank(gap)
    ensures SkipSpace(gap + rest) == SkipSpace(rest)
  {
    if gap == "" {
      assert gap + rest == rest;
    } else {
      assert (gap + rest)[1..] == gap[1..] + rest;
      SkipBlank(gap[1..], rest);
    }
  }

  lemma SpaceIsNoDigit(s: string)
    ensures StartsWithDigit(s) ==> SkipSpace(s) == s
  {
  }

  lemma ReadNumeral(gap: string, digits: string, rest: string, limit: nat)
    requires Blank(gap) && Numeral(digits, limit) && limit <= MAX_NUMBER && !StartsWithDigit(rest)
    ensures ReadNumber(gap + (digits + rest)) == Ok((Some(NumberOf(digits)), rest))
  {
    SkipBlank(gap, digits + rest);
    SpaceIsNoDigit(digits + rest);
    DigitRunOf(digits, rest);
  }

  lemma ReadNoNumeral(rest: string)
    requires !StartsWithDigit(SkipSpace(rest))
    ensures ReadNumber(rest) == Ok((None, SkipSpace(rest)))
  {
  }

  /** What may follow a complete term: nothing, or the sign of the next one. */
  ghost predicate Boundary(s: string) {
    SkipSpace(s) == "" || SkipSpace(s)[0] in "+-"
  }

  /** The first suffix, if any, is preceded by blanks and starts with a letter or '!'. */
  lemma SuffixesStart(xs: seq<SuffixText>, mods: Mods, rest: string)
    requires ValidSuffixes(xs, mods) && Boundary(rest)
    ensures !StartsWithDigit(WriteSuffixes(xs, rest))
    ensures !StartsWithDigit(SkipSpace(WriteSuffixes(xs, rest)))
  {
    if xs == [] {
      SpaceIsNoDigit(rest);
    } else {
      SuffixStart(xs[0], WriteSuffixes(xs[1..], rest));
    }
  }

  lemma SuffixStart(x: SuffixText, rest: string)
    requires ValidSuffix(x)
    ensures !StartsWithDigit(WriteSuffix(x, rest))
    ensures !StartsWithDigit(SkipSpace(WriteSuffix(x, rest)))
  {
    SpaceIsNoDigit(WriteSuffix(x, rest));
    match x
    case KeepText(gap, k, which, numberGap, digits) => SkipBlank(gap, [k, which] + (numberGap + (digits + rest)));
    case RerollText(gap, r, o, comparator, numberGap, digits) =>
      SkipBlank(gap, [r, o, comparator] + (numberGap + (digits + rest)));
    case ExplodeText(gap) => SkipBlank(gap, ['!'] + rest);
  }

  lemma ReadSuffixesTrimmed(s: string, mods: Mods)
    ensures ReadSuffixes(SkipSpace(s), mods) == ReadSuffixes(s, mods)
  {
    SkipSpaceTwice(s);
  }

  /** A written number, or no number and only what follows. */
  lemma ReadOptional(gap: string, digits: string, rest: string, limit: nat)
    requires Numeral(digits, limit) || (digits == "" && gap == "")
    requires Blank(gap) && limit <= MAX_NUMBER && !StartsWithDigit(rest) && !StartsWithDigit(SkipSpace(rest))
    ensures ReadNumber(gap + (digits + rest)) ==
            Ok(if digits == "" then (None, SkipSpace(rest)) else (Some(NumberOf(digits)), rest))
  {
    if digits == "" {
      assert gap + (digits + rest) == rest;
    } else {
      ReadNumeral(gap, digits, rest, limit);
    }
  }

  lemma ReadAfterBlank(gap: string, s: string, mods: Mods)
    requires Blank(gap)
    ensures ReadSuffixes(gap + s, mods) == ReadSuffixes(s, mods)
  {
    SkipBlank(gap, s);
    ReadSuffixesTrimmed(gap + s, mods);
    ReadSuffixesTrimmed(s, mods);
  }

  lemma ReadKeep(k: char, which: char, number: string, mods: Mods)
    requires k in "kK" && which in "hHlL" && mods.keep.None?
    requires ReadNumber(number).Ok?
    requires var (n, _) := ReadNumber(number).value; n.Some? ==> n.value <= MAX_DICE_COUNT
    ensures var (n, rest) := ReadNumber(number).value;
            ReadSuffixes([k, which] + number, mods) ==
            ReadSuffixes(rest, mods.(keep := Some(Keep(which in "hH", if n.None? then 1 else n.value))))
  {
    var t := [k, which] + number;
    assert SkipSpace(t) == t && t[0] == k && t[1] == which && t[2..] == number;
  }

  lemma ReadReroll(r: char, o: char, comparator: char, number: string, mods: Mods)
    requires r in "rR" && o in "oO" && comparator in "<>" && mods.reroll.None?
    requires ReadNumber(number).Ok?
    requires var (n, _) := ReadNumber(number).value; n.Some? && n.value <= MAX_DIE_SIDES
    ensures var (n, rest) := ReadNumber(number).value;
            ReadSuffixes([r, o, comparator] + number, mods) ==
            ReadSuffixes(rest, mods.(reroll := Some(Reroll(if comparator == '<' then Below else Above, n.value))))
  {
    var t := [r, o, comparator] + number;
    assert SkipSpace(t) == t && t[0] == r && t[1] == o && t[2] == comparator && t[3..] == number;
  }

  lemma ReadExplode(rest: string, mods: Mods)
    requires !mods.explode
    ensures ReadSuffixes(['!'] + rest, mods) == ReadSuffixes(rest, mods.(explode := true))
  {
    var t := ['!'] + rest;
    assert SkipSpace(t) == t && t[0] == '!' && t[1..] == rest;
  }

  lemma ReadOneSuffix(x: SuffixText, rest: string, mods: Mods)
    requires ValidSuffixes([x], mods) && !StartsWithDigit(rest) && !StartsWithDigit(SkipSpace(rest))
    ensures ReadSuffixes(WriteSuffix(x, rest), mods) == ReadSuffixes(rest, WithSuffix(mods, x))
  {
    match x
    case KeepText(gap, k, which, numberGap, digits) =>
      var number := numberGap + (digits + rest);
      ReadAfterBlank(gap, [k, which] + number, mods);
      ReadOptional(numberGap, digits, rest, MAX_DICE_COUNT);
      ReadKeep(k, which, number, mods);
      ReadSuffixesTrimmed(rest, WithSuffix(mods, x));
    case RerollText(gap, r, o, comparator, numberGap, digits) =>
      var number := numberGap + (digits + rest);
      ReadAfterBlank(gap, [r, o, comparator] + number, mods);
      ReadNumeral(numberGap, digits, rest, MAX_DIE_SIDES);
      ReadReroll(r, o, comparator, number, mods);
    case ExplodeText(gap) =>
      ReadAfterBlank(gap, ['!'] + rest, mods);
      ReadExplode(rest, mods);
  }

  lemma {:induction false} ReadWrittenSuffixes(xs: seq<SuffixText>, mods: Mods, rest: string)
    requires ValidSuffixes(xs, mods) && Boundary(rest)
    ensures ReadSuffixes(WriteSuffixes(xs, rest), mods) == Ok((WithSuffixes(mods, xs), SkipSpace(rest)))
  {
    if xs != [] {
      var after := WriteSuffixes(xs[1..], rest);
      SuffixesStart(xs[1..], WithSuffix(mods, xs[0]), rest);
      assert ValidSuffixes([xs[0]], mods);
      ReadOneSuffix(xs[0], after, mods);
      ReadWrittenSuffixes(xs[1..], WithSuffix(mods, xs[0]), rest);
    }
  }

  lemma ReadConstant(number: string, sign: Sign, rest: string, amount: nat)
    requires ReadNumber(number) == Ok((Some(amount), rest)) && amount <= MAX_NUMBER && Boundary(rest)
    ensures ReadTerm(number, sign) == Ok((Constant(sign, amount), SkipSpace(rest)))
  {
  }

  lemma ReadDice(number: string, sign: Sign, count: Option<nat>, d: char, afterCount: string, afterD: string,
                 sides: nat, tail: string, mods: Mods, end: string)
    requires ReadNumber(number) == Ok((count, afterCount)) && (count.Some? ==> 1 <= count.value <= MAX_DICE_COUNT)
    requires SkipSpace(afterCount) == [d] + afterD && d in "dD"
    requires ReadNumber(afterD) == Ok((Some(sides), tail)) && MIN_DIE_SIDES <= sides <= MAX_DIE_SIDES
    requires ReadSuffixes(tail, Plain) == Ok((mods, end))
    ensures ReadTerm(number, sign) == Ok((Dice(sign, if count.None? then 1 else count.value, sides, mods), end))
  {
    assert ([d] + afterD)[0] == d && ([d] + afterD)[1..] == afterD;
  }

  lemma ReadWrittenTerm(x: TermText, sign: Sign, rest: string)
    requires ValidTerm(x) && Boundary(rest)
    ensures ReadTerm(WriteTerm(x, rest), sign) == Ok((TermMeaning(x, sign), SkipSpace(rest)))
  {
    match x
    case ConstantText(gap, digits) =>
      assert !StartsWithDigit(rest) by { SpaceIsNoDigit(rest); }
      ReadNumeral(gap, digits, rest, MAX_NUMBER);
      ReadConstant(gap + (digits + rest), sign, rest, NumberOf(digits));
    case DiceText(gap, digits, dGap, d, sidesGap, sides, suffixes) =>
      var tail := WriteSuffixes(suffixes, rest);
      SuffixesStart(suffixes, Plain, rest);
      ReadNumeral(sidesGap, sides, tail, MAX_DIE_SIDES);
      ReadWrittenSuffixes(suffixes, Plain, rest);
      var afterD := sidesGap + (sides + tail);
      ReadCount(gap, digits, dGap, d, afterD);
      var (count, afterCount) := ReadNumber(WriteTerm(x, rest)).value;
      ReadDice(WriteTerm(x, rest), sign, count, d, afterCount, afterD, NumberOf(sides), tail,
               WithSuffixes(Plain, suffixes), SkipSpace(rest));
  }

  /** The optional count in front of the die letter. */
  lemma ReadCount(gap: string, digits: string, dGap: string, d: char, afterD: string)
    requires Blank(gap) && Blank(dGap) && d in "dD"
    requires Numeral(digits, MAX_DICE_COUNT) || (digits == "" && dGap == "")
    ensures var r := ReadNumber(gap + (digits + (dGap + ([d] + afterD))));
            && r.Ok?
            && r.value.0 == (if digits == "" then None else Some(NumberOf(digits)))
            && SkipSpace(r.value.1) == [d] + afterD
  {
    var u := [d] + afterD;
    assert SkipSpace(u) == u && u[0] == d;
    SkipBlank(dGap, u);
    if digits == "" {
      assert digits + (dGap + u) == u;
      SkipBlank(gap, u);
      ReadNoNumeral(gap + u);
      SkipSpaceTwice(gap + u);
    } else {
      assert !StartsWithDigit(dGap + u) by { SpaceIsNoDigit(dGap + u); }
      ReadNumeral(gap, digits, dGap + u, MAX_DICE_COUNT);
    }
  }

  lemma ReadLast(s: string, sign: Sign, term: Term)
    requires ReadTerm(s, sign) == Ok((term, ""))
    ensures ReadTerms(s, sign) == Ok([term])
  {
  }

  lemma ReadNext(s: string, sign: Sign, term: Term, signChar: char, next: string)
    requires ReadTerm(s, sign) == Ok((term, [signChar] + next)) && signChar in "+-"
    ensures var more := ReadTerms(next, if signChar == '-' then Minus else Plus);
            ReadTerms(s, sign) == if more.Err? then more else Ok([term] + more.value)
  {
    var rest := [signChar] + next;
    assert SkipSpace(rest) == rest && rest[0] == signChar && rest[1..] == next;
  }

  lemma {:induction false} ReadWritten(x: TermText, sign: Sign, xs: seq<SignedText>, trailing: string)
    requires ValidTerm(x) && ValidAll(xs) && Blank(trailing)
    ensures ReadTerms(WriteTerm(x, Write(xs, trailing)), sign) == Ok([TermMeaning(x, sign)] + Meaning(xs))
    decreases |xs|
  {
    var rest := Write(xs, trailing);
    if xs == [] {
      SkipBlank(trailing, "");
      assert trailing + "" == trailing;
      ReadWrittenTerm(x, sign, rest);
      ReadLast(WriteTerm(x, rest), sign, TermMeaning(x, sign));
      assert [TermMeaning(x, sign)] + Meaning(xs) == [TermMeaning(x, sign)];
    } else {
      var next := WriteTerm(xs[0].term, Write(xs[1..], trailing));
      var signChar := xs[0].sign[0];
      assert xs[0].sign == [signChar];
      SkipBlank(xs[0].gap, [signChar] + next);
      assert SkipSpace([signChar] + next) == [signChar] + next;
      ReadWrittenTerm(x, sign, rest);
      ReadNext(WriteTerm(x, rest), sign, TermMeaning(x, sign), signChar, next);
      ReadWritten(xs[0].term, SignMeaning(xs[0].sign), xs[1..], trailing);
    }
  }

  // ---------------------------------------------------------------- trimming

  lemma WriteSuffixAppend(x: SuffixText, a: string, b: string)
    ensures WriteSuffix(x, a + b) == WriteSuffix(x, a) + b
  {
    match x
    case KeepText(gap, k, which, numberGap, digits) => FiveParts(gap, [k, which], numberGap, digits, a, b);
    case RerollText(gap, r, o, comparator, numberGap, digits) =>
      FiveParts(gap, [r, o, comparator], numberGap, digits, a, b);
    case ExplodeText(gap) => FiveParts(gap, ['!'], "", "", a, b); ShortParts(gap, ['!'], a, b);
  }

  lemma FiveParts(p: string, q: string, r: string, t: string, a: string, b: string)
    ensures p + (q + (r + (t + (a + b)))) == p + (q + (r + (t + a))) + b
  {
  }

  lemma ShortParts(p: string, q: string, a: string, b: string)
    ensures p + (q + (a + b)) == p + (q + a) + b
  {
  }

  lemma {:induction false} WriteSuffixesAppend(xs: seq<SuffixText>, a: string, b: string)
    ensures WriteSuffixes(xs, a + b) == WriteSuffixes(xs, a) + b
  {
    if xs != [] {
      WriteSuffixesAppend(xs[1..], a, b);
      WriteSuffixAppend(xs[0], WriteSuffixes(xs[1..], a), b);
    }
  }

  lemma WriteTermAppend(x: TermText, a: string, b: string)
    ensures WriteTerm(x, a + b) == WriteTerm(x, a) + b
  {
    match x
    case ConstantText(gap, digits) => ShortParts(gap, digits, a, b);
    case DiceText(gap, digits, dGap, d, sidesGap, sides, suffixes) =>
      WriteSuffixesAppend(suffixes, a, b);
      var tail := WriteSuffixes(suffixes, a);
      ShortParts(sidesGap, sides, tail, b);
      FiveParts(gap, digits, dGap, [d], sidesGap + (sides + tail), b);
  }

  lemma {:induction false} WriteAppend(xs: seq<SignedText>, a: string, b: string)
    ensures Write(xs, a + b) == Write(xs, a) + b
  {
    if xs != [] {
      WriteAppend(xs[1..], a, b);
      WriteTermAppend(xs[0].term, Write(xs[1..], a), b);
      ShortParts(xs[0].gap, xs[0].sign, WriteTerm(xs[0].term, Write(xs[1..], a)), b);
    }
  }

  ghost predicate EndsSolid(s: string) {
    s != "" && !IsSpace(s[|s| - 1])
  }

  lemma AppendEndsSolid(a: string, b: string)
    requires EndsSolid(b)
    ensures EndsSolid(a + b)
  {
  }

  lemma SuffixEndsSolid(x: SuffixText)
    requires ValidSuffix(x)
    ensures EndsSolid(WriteSuffix(x, ""))
  {
    match x
    case KeepText(gap, k, which, numberGap, digits) =>
      assert [k, which] + (numberGap + (digits + "")) == [k, which] + numberGap + digits;
    case RerollText(gap, r, o, comparator, numberGap, digits) =>
      assert [r, o, comparator] + (numberGap + (digits + "")) == [r, o, comparator] + numberGap + digits;
    case ExplodeText(gap) =>
  }

  lemma {:induction false} SuffixesEndSolid(xs: seq<SuffixText>, mods: Mods)
    requires ValidSuffixes(xs, mods)
    ensures xs != [] ==> EndsSolid(WriteSuffixes(xs, ""))
  {
    if xs != [] {
      SuffixEndsSolid(xs[0]);
      SuffixesEndSolid(xs[1..], WithSuffix(mods, xs[0]));
      var after := WriteSuffixes(xs[1..], "");
      WriteSuffixAppend(xs[0], "", after);
      assert "" + after == after;
      assert xs[1..] == [] ==> WriteSuffix(xs[0], "") + after == WriteSuffix(xs[0], "");
    }
  }

  lemma TermEndsSolid(x: TermText)
    requires ValidTerm(x)
    ensures EndsSolid(WriteTerm(x, ""))
  {
    match x
    case ConstantText(gap, digits) =>
      AppendEndsSolid(gap, digits);
      assert digits + "" == digits;
    case DiceText(gap, digits, dGap, d, sidesGap, sides, suffixes) =>
      SuffixesEndSolid(suffixes, Plain);
      var tail := WriteSuffixes(suffixes, "");
      assert suffixes == [] ==> sides + tail == sides;
      AppendEndsSolid(sidesGap, sides + tail);
      AppendEndsSolid([d], sidesGap + (sides + tail));
      AppendEndsSolid(dGap, [d] + (sidesGap + (sides + tail)));
      AppendEndsSolid(digits, dGap + ([d] + (sidesGap + (sides + tail))));
      AppendEndsSolid(gap, digits + (dGap + ([d] + (sidesGap + (sides + tail)))));
  }

  lemma {:induction false} AllEndSolid(x: TermText, xs: seq<SignedText>)
    requires ValidTerm(x) && ValidAll(xs)
    ensures EndsSolid(WriteTerm(x, Write(xs, "")))
    decreases |xs|
  {
    TermEndsSolid(x);
    if xs != [] {
      AllEndSolid(xs[0].term, xs[1..]);
      var next := WriteTerm(xs[0].term, Write(xs[1..], ""));
      AppendEndsSolid(xs[0].sign, next);
      AppendEndsSolid(xs[0].gap, xs[0].sign + next);
      WriteTermAppend(x, "", Write(xs, ""));
      assert "" + Write(xs, "") == Write(xs, "");
      AppendEndsSolid(WriteTerm(x, ""), Write(xs, ""));
    }
  }

  lemma {:induction false} TrimEndBlank(s: string, blank: string)
    requires Blank(blank) && EndsSolid(s)
    ensures TrimEnd(s + blank) == s
    decreases |blank|
  {
    if blank == "" {
      assert s + blank == s;
    } else {
      assert (s + blank)[..|s + blank| - 1] == s + blank[..|blank| - 1];
      TrimEndBlank(s, blank[..|blank| - 1]);
    }
  }

  lemma {:induction false} SkipSpaceEndsSolid(s: string, blank: string)
    requires EndsSolid(s)
    ensures EndsSolid(SkipSpace(s)) && SkipSpace(s + blank) == SkipSpace(s) + blank
  {
    assert (s + blank)[1..] == s[1..] + blank;
    if IsSpace(s[0]) {
      SkipSpaceEndsSolid(s[1..], blank);
    }
  }

  lemma ReadNumberTrimmed(s: string)
    ensures ReadNumber(SkipSpace(s)) == ReadNumber(s)
  {
    SkipSpaceTwice(s);
  }

  lemma ReadTermTrimmed(s: string, sign: Sign)
    ensures ReadTerm(SkipSpace(s), sign) == ReadTerm(s, sign)
  {
    hide ReadSuffixes, ReadNumber, SkipSpace;
    ReadNumberTrimmed(s);
  }

  lemma ReadTermsTrimmed(s: string, sign: Sign)
    ensures ReadTerms(SkipSpace(s), sign) == ReadTerms(s, sign)
  {
    hide ReadTerm, SkipSpace;
    ReadTermTrimmed(s, sign);
  }

  /** A term starts with a digit or the die letter, so it is never taken for a sign. */
  lemma TermStart(x: TermText, rest: string)
    requires ValidTerm(x)
    ensures var t := SkipSpace(WriteTerm(x, rest)); t != "" && t[0] !in "+-"
  {
    match x
    case ConstantText(gap, digits) =>
      SkipBlank(gap, digits + rest);
    case DiceText(gap, digits, dGap, d, sidesGap, sides, suffixes) =>
      var u := [d] + (sidesGap + (sides + WriteSuffixes(suffixes, rest)));
      SkipBlank(gap, digits + (dGap + u));
      if digits == "" {
        assert digits + (dGap + u) == u;
      }
  }

  /** Trimming removes the blanks around an expression and nothing else. */
  lemma TrimWritten(xs: seq<SignedText>, trailing: string)
    requires Valid(xs) && Blank(trailing)
    ensures SkipSpace(Trim(Write(xs, trailing))) == SkipSpace(xs[0].sign + WriteTerm(xs[0].term, Write(xs[1..], "")))
  {
    var body := Write(xs, "");
    var first := WriteTerm(xs[0].term, Write(xs[1..], ""));
    WriteAppend(xs, "", trailing);
    assert "" + trailing == trailing;
    AllEndSolid(xs[0].term, xs[1..]);
    AppendEndsSolid(xs[0].sign, first);
    AppendEndsSolid(xs[0].gap, xs[0].sign + first);
    SkipSpaceEndsSolid(body, trailing);
    TrimEndBlank(SkipSpace(body), trailing);
    SkipSpaceTwice(body);
    SkipBlank(xs[0].gap, xs[0].sign + first);
  }

  lemma ParseFrom(s: string, sign: string, body: string)
    requires sign in {"", "+", "-"}
    requires SkipSpace(Trim(s)) == SkipSpace(sign + body) && SkipSpace(body) != "" && SkipSpace(body)[0] !in "+-"
    ensures Parse(s) == ReadTerms(body, SignMeaning(sign))
  {
    if sign == "" {
      assert sign + body == body;
      ReadTermsTrimmed(body, Plus);
    } else {
      var signed := sign + body;
      assert SkipSpace(signed) == signed && signed[0] == sign[0] && signed[1..] == body;
    }
  }

  /** Completeness: every spelling the grammar allows is accepted, with its meaning. */
  lemma SpellingIsParsed(xs: seq<SignedText>, trailing: string)
    requires Valid(xs) && Blank(trailing)
    ensures Parse(Write(xs, trailing)) == Ok(Meaning(xs))
  {
    TrimWritten(xs, trailing);
    TermStart(xs[0].term, Write(xs[1..], ""));
    ParseFrom(Write(xs, trailing), xs[0].sign, WriteTerm(xs[0].term, Write(xs[1..], "")));
    ReadWritten(xs[0].term, SignMeaning(xs[0].sign), xs[1..], "");
  }

  // ---------------------------------------------------------------- finding the spelling

  lemma {:induction false} SpaceSplit(s: string) returns (gap: string)
    ensures s == gap + SkipSpace(s) && Blank(gap)
  {
    if s != "" && IsSpace(s[0]) {
      gap := SpaceSplit(s[1..]);
      gap := [s[0]] + gap;
    } else {
      gap := "";
    }
  }

  lemma {:induction false} TrimSplit(s: string) returns (trail: string)
    ensures s == TrimEnd(s) + trail && Blank(trail)
  {
    if s != "" && IsSpace(s[|s| - 1]) {
      trail := TrimSplit(s[..|s| - 1]);
      trail := trail + [s[|s| - 1]];
    } else {
      trail := "";
    }
  }

  lemma SpellNumber(s: string, limit: nat) returns (gap: string, digits: string)
    requires ReadNumber(s).Ok?
    requires ReadNumber(s).value.0.Some? && ReadNumber(s).value.0.value <= limit
    ensures Blank(gap) && Numeral(digits, limit) && NumberOf(digits) == ReadNumber(s).value.0.value
    ensures s == gap + (digits + ReadNumber(s).value.1)
  {
    gap := SpaceSplit(s);
    digits := DigitRun(SkipSpace(s));
    assert SkipSpace(s) == digits + SkipSpace(s)[|digits|..];
  }

  /** A suffix found at the start of `s`, and the text behind it. */
  lemma SpellOneSuffix(s: string, mods: Mods) returns (x: SuffixText, rest: string)
    requires ReadSuffixes(s, mods).Ok?
    requires !Finished(SkipSpace(s))
    ensures ValidSuffixes([x], mods) && s == WriteSuffix(x, rest) && |rest| < |s|
    ensures ReadSuffixes(s, mods) == ReadSuffixes(rest, WithSuffix(mods, x))
  {
    hide ReadNumber;
    var t := SkipSpace(s);
    var gap := SpaceSplit(s);
    if t[0] in "kK" {
      x, rest := SpellKeep(gap, t, mods);
      ReadSuffixesTrimmed(s, mods);
    } else if t[0] in "rR" {
      x, rest := SpellReroll(gap, t, mods);
      ReadSuffixesTrimmed(s, mods);
    } else {
      x, rest := ExplodeText(gap), t[1..];
      assert t == ['!'] + rest;
    }
  }

  lemma SpellReroll(gap: string, t: string, mods: Mods) returns (x: SuffixText, rest: string)
    requires Blank(gap) && SkipSpace(t) == t && !Finished(t) && t[0] in "rR" && ReadSuffixes(t, mods).Ok?
    ensures ValidSuffixes([x], mods) && gap + t == WriteSuffix(x, rest) && |rest| < |t|
    ensures ReadSuffixes(t, mods) == ReadSuffixes(rest, WithSuffix(mods, x))
  {
    var number := t[3..];
    assert t == [t[0], t[1], t[2]] + number;
    var numberGap, digits := SpellNumber(number, MAX_DIE_SIDES);
    x, rest := RerollText(gap, t[0], t[1], t[2], numberGap, digits), ReadNumber(number).value.1;
  }

  lemma SpellKeep(gap: string, t: string, mods: Mods) returns (x: SuffixText, rest: string)
    requires Blank(gap) && SkipSpace(t) == t && !Finished(t) && t[0] in "kK" && ReadSuffixes(t, mods).Ok?
    ensures ValidSuffixes([x], mods) && gap + t == WriteSuffix(x, rest) && |rest| < |t|
    ensures ReadSuffixes(t, mods) == ReadSuffixes(rest, WithSuffix(mods, x))
  {
    var number := t[2..];
    assert t == [t[0], t[1]] + number;
    if ReadNumber(number).value.0.None? {
      x, rest := KeepText(gap, t[0], t[1], "", ""), number;
      assert "" + ("" + rest) == rest;
      ReadSuffixesTrimmed(rest, WithSuffix(mods, x));
    } else {
      var numberGap, digits := SpellNumber(number, MAX_DICE_COUNT);
      x, rest := KeepText(gap, t[0], t[1], numberGap, digits), ReadNumber(number).value.1;
    }
  }

  /** No suffix starts here. */
  ghost predicate Finished(t: string) {
    || t == ""
    || (t[0] !in "kKrR!")
    || (t[0] in "kK" && (|t| < 2 || t[1] !in "hHlL"))
    || (t[0] in "rR" && (|t| < 2 || t[1] !in "oO"))
  }

  lemma {:induction false} SpellSuffixes(s: string, mods: Mods) returns (xs: seq<SuffixText>, tail: string)
    requires ReadSuffixes(s, mods).Ok?
    ensures ValidSuffixes(xs, mods) && s == WriteSuffixes(xs, tail)
    ensures ReadSuffixes(s, mods).value == (WithSuffixes(mods, xs), SkipSpace(tail))
    decreases |s|
  {
    if Finished(SkipSpace(s)) {
      xs, tail := [], s;
    } else {
      var x, rest := SpellOneSuffix(s, mods);
      xs, tail := SpellSuffixes(rest, WithSuffix(mods, x));
      assert ([x] + xs)[1..] == xs;
      xs := [x] + xs;
    }
  }

  /** The optional count in front of a die letter. */
  lemma SpellCount(s: string) returns (gap: string, digits: string, dGap: string)
    requires ReadNumber(s).Ok? && (ReadNumber(s).value.0.Some? ==> 1 <= ReadNumber(s).value.0.value <= MAX_DICE_COUNT)
    ensures Blank(gap) && Blank(dGap)
    ensures match ReadNumber(s).value.0
            case None => digits == "" && dGap == ""
            case Some(n) => Numeral(digits, MAX_DICE_COUNT) && NumberOf(digits) == n
    ensures s == gap + (digits + (dGap + SkipSpace(ReadNumber(s).value.1)))
  {
    var (n, rest) := ReadNumber(s).value;
    if n.Some? {
      gap, digits := SpellNumber(s, MAX_DICE_COUNT);
      dGap := SpaceSplit(rest);
    } else {
      gap := SpaceSplit(s);
      digits, dGap := "", "";
      SkipSpaceTwice(s);
      assert gap + ("" + ("" + rest)) == gap + rest;
    }
  }

  lemma SpellDice(s: string, sign: Sign) returns (x: TermText, tail: string)
    requires ReadTerm(s, sign).Ok? && ReadTerm(s, sign).value.0.Dice?
    ensures ValidTerm(x) && s == WriteTerm(x, tail)
    ensures ReadTerm(s, sign).value == (TermMeaning(x, sign), SkipSpace(tail))
  {
    var d, afterD := DieLetter(s, sign);
    var gap, digits, dGap := SpellCount(s);
    var sidesGap, sides := SpellNumber(afterD, MAX_DIE_SIDES);
    var suffixes;
    suffixes, tail := SpellSuffixes(ReadNumber(afterD).value.1, Plain);
    x := DiceText(gap, digits, dGap, d, sidesGap, sides, suffixes);
  }

  /** The pieces a dice term was read from. */
  lemma DieLetter(s: string, sign: Sign) returns (d: char, afterD: string)
    requires ReadTerm(s, sign).Ok? && ReadTerm(s, sign).value.0.Dice?
    ensures ReadNumber(s).Ok? && SkipSpace(ReadNumber(s).value.1) == [d] + afterD && d in "dD"
    ensures ReadNumber(s).value.0.Some? ==> 1 <= ReadNumber(s).value.0.value <= MAX_DICE_COUNT
    ensures ReadNumber(afterD).Ok? && ReadNumber(afterD).value.0.Some?
    ensures MIN_DIE_SIDES <= ReadNumber(afterD).value.0.value <= MAX_DIE_SIDES
    ensures ReadSuffixes(ReadNumber(afterD).value.1, Plain).Ok?
    ensures var count := ReadNumber(s).value.0;
            var (mods, end) := ReadSuffixes(ReadNumber(afterD).value.1, Plain).value;
            ReadTerm(s, sign).value ==
            (Dice(sign, if count.None? then 1 else count.value, ReadNumber(afterD).value.0.value, mods), end)
  {
    var t := SkipSpace(ReadNumber(s).value.1);
    d, afterD := t[0], t[1..];
  }

  lemma SpellTerm(s: string, sign: Sign) returns (x: TermText, tail: string)
    requires ReadTerm(s, sign).Ok?
    ensures ValidTerm(x) && s == WriteTerm(x, tail)
    ensures ReadTerm(s, sign).value == (TermMeaning(x, sign), SkipSpace(tail))
  {
    if ReadTerm(s, sign).value.0.Dice? {
      x, tail := SpellDice(s, sign);
    } else {
      tail := ReadNumber(s).value.1;
      var gap, digits := SpellNumber(s, MAX_NUMBER);
      x := ConstantText(gap, digits);
    }
  }

  lemma {:induction false} SpellTerms(s: string, sign: Sign)
    returns (x: TermText, xs: seq<SignedText>, trailing: string)
    requires ReadTerms(s, sign).Ok?
    ensures ValidTerm(x) && ValidAll(xs) && Blank(trailing) && s == WriteTerm(x, Write(xs, trailing))
    ensures ReadTerms(s, sign).value == [TermMeaning(x, sign)] + Meaning(xs)
    decreases |s|
  {
    hide ReadTerm, SkipSpace, WriteTerm, TermMeaning, ValidTerm;
    var tail;
    x, tail := SpellTerm(s, sign);
    SkipSpaceTwice(tail);
    var t := SkipSpace(tail);
    var gap := SpaceSplit(tail);
    if t == "" {
      xs, trailing := [], gap;
      assert gap + "" == gap;
      assert [TermMeaning(x, sign)] + Meaning(xs) == [TermMeaning(x, sign)];
    } else {
      var y, ys;
      y, ys, trailing := SpellTerms(t[1..], if t[0] == '-' then Minus else Plus);
      xs := [SignedText(gap, [t[0]], y)] + ys;
      assert xs[1..] == ys;
      assert t == [t[0]] + t[1..];
    }
  }

  lemma TrimmedAway(s: string) returns (lead: string, trail: string)
    ensures Blank(lead) && Blank(trail) && s == lead + (SkipSpace(Trim(s)) + trail)
  {
    var outer := SpaceSplit(s);
    trail := TrimSplit(SkipSpace(s));
    var inner := SpaceSplit(Trim(s));
    lead := outer + inner;
    var t := SkipSpace(Trim(s));
    assert outer + ((inner + t) + trail) == (outer + inner) + (t + trail);
  }

  lemma JoinSpelling(lead: string, sign: string, x: TermText, ys: seq<SignedText>, inner: string, trail: string)
    ensures Write([SignedText(lead, sign, x)] + ys, inner + trail) ==
            lead + ((sign + WriteTerm(x, Write(ys, inner))) + trail)
  {
    WriteFirst(SignedText(lead, sign, x), ys, inner + trail);
    WriteAppend(ys, inner, trail);
    WriteTermAppend(x, Write(ys, inner), trail);
    Regroup(lead, sign, WriteTerm(x, Write(ys, inner)), trail);
  }

  lemma WriteFirst(x: SignedText, xs: seq<SignedText>, rest: string)
    ensures Write([x] + xs, rest) == x.gap + (x.sign + WriteTerm(x.term, Write(xs, rest)))
  {
    assert ([x] + xs)[1..] == xs;
  }

  lemma Regroup(lead: string, sign: string, body: string, trail: string)
    ensures lead + ((sign + body) + trail) == lead + (sign + (body + trail))
  {
  }

  /** The text of an accepted expression without outer blanks: a sign, or none, and terms. */
  lemma ParseSplits(s: string) returns (sign: string, body: string)
    requires Parse(s).Ok?
    ensures sign in {"", "+", "-"} && SkipSpace(Trim(s)) == sign + body
    ensures Parse(s) == ReadTerms(body, SignMeaning(sign))
  {
    var t := SkipSpace(Trim(s));
    if t[0] in "+-" {
      sign, body := [t[0]], t[1..];
    } else {
      sign, body := "", t;
    }
  }

  /** Soundness: every accepted text is a spelling of what it is read as. */
  lemma ParsedIsSpelling(s: string) returns (xs: seq<SignedText>, trailing: string)
    requires Parse(s).Ok?
    ensures Valid(xs) && Blank(trailing) && s == Write(xs, trailing) && Parse(s) == Ok(Meaning(xs))
  {
    var lead, trail := TrimmedAway(s);
    var sign, body := ParseSplits(s);
    var x, ys, inner := SpellTerms(body, SignMeaning(sign));
    xs, trailing := [SignedText(lead, sign, x)] + ys, inner + trail;
    assert xs[1..] == ys;
    JoinSpelling(lead, sign, x, ys, inner, trail);
  }

  /** A text is accepted with a meaning exactly when the grammar spells that meaning with it. */
  lemma ParserIsTheGrammar(s: string, terms: seq<Term>)
    ensures Parse(s) == Ok(terms) <==>
            exists xs, trailing :: Valid(xs) && Blank(trailing) && s == Write(xs, trailing) && Meaning(xs) == terms
  {
    if Parse(s) == Ok(terms) {
      var xs, trailing := ParsedIsSpelling(s);
    }
    if exists xs, trailing :: Valid(xs) && Blank(trailing) && s == Write(xs, trailing) && Meaning(xs) == terms {
      var xs, trailing :| Valid(xs) && Blank(trailing) && s == Write(xs, trailing) && Meaning(xs) == terms;
      SpellingIsParsed(xs, trailing);
    }
  }
}
