/** The dice notation of client/src/api/dice_notation.ts: terms, and the reader as a function
    of the text still to be read. DiceParser proves the cursor-moving parser equal to it,
    DiceSpelling proves that it accepts exactly the spellings of the grammar. */
module DiceGrammar {
  import opened Text

  const MAX_DICE_COUNT := 1000
  const MIN_DIE_SIDES := 2
  const MAX_DIE_SIDES := 1000
  const MAX_NUMBER := 1_000_000_000
  const MAX_CONSTANT := 0x7fff_ffff

  datatype Sign = Plus | Minus
  datatype Comparator = Below | Above
  datatype Keep = Keep(highest: bool, n: nat)
  datatype Reroll = Reroll(comparator: Comparator, threshold: nat)

  /** The suffixes of a dice term. */
  datatype Mods = Mods(keep: Option<Keep>, reroll: Option<Reroll>, explode: bool)

  datatype Term =
    | Constant(sign: Sign, amount: nat)
    | Dice(sign: Sign, count: nat, sides: nat, mods: Mods)

  const Plain := Mods(None, None, false)

  datatype DiceError =
    | EmptyExpression | NumberTooLarge | SignExpected | TermExpected | SidesMissing
    | CountOutOfRange | SidesOutOfRange | ConstantOutOfRange
    | KeepTwice | KeepOutOfRange
    | RerollTwice | ComparatorExpected | ThresholdMissing | ThresholdOutOfRange
    | ExplodeTwice

  /** The white space of a JavaScript regular expression's `\s`, which is also what `trim` strips. */
  predicate IsSpace(c: char) {
    || '\t' <= c <= '\r' || c == ' ' || c == '\U{A0}' || c == '\U{1680}' || '\U{2000}' <= c <= '\U{200A}'
    || c == '\U{2028}' || c == '\U{2029}' || c == '\U{202F}' || c == '\U{205F}' || c == '\U{3000}' || c == '\U{FEFF}'
  }

  function SkipSpace(s: string): (t: string)
    ensures |t| <= |s|
    ensures t != "" ==> !IsSpace(t[0])
  {
    if s != "" && IsSpace(s[0]) then SkipSpace(s[1..]) else s
  }

  lemma SkipSpaceTwice(s: string)
    ensures SkipSpace(SkipSpace(s)) == SkipSpace(s)
  {
  }

  function TrimEnd(s: string): string {
    if s != "" && IsSpace(s[|s| - 1]) then TrimEnd(s[..|s| - 1]) else s
  }

  function Trim(s: string): string {
    TrimEnd(SkipSpace(s))
  }

  // ---------------------------------------------------------------- the reader

  /** An optional number after optional space; no digits is no number, not an error. */
  ghost function ReadNumber(s: string): (r: Result<(Option<nat>, string), DiceError>)
    ensures r.Ok? ==> |r.value.1| <= |s|
  {
    var t := SkipSpace(s);
    var digits := DigitRun(t);
    if NumberOf(digits) > MAX_NUMBER then Err(NumberTooLarge)
    else if digits == "" then Ok((None, t))
    else Ok((Some(NumberOf(digits)), t[|digits|..]))
  }

  ghost function ReadSuffixes(s: string, mods: Mods): (r: Result<(Mods, string), DiceError>)
    ensures r.Ok? ==> |r.value.1| <= |s|
    decreases |s|
  {
    var t := SkipSpace(s);
    if t != "" && t[0] in "kK" then
      if mods.keep.Some? then Err(KeepTwice)
      else if |t| < 2 || t[1] !in "hHlL" then Ok((mods, t))
      else
        var (n, rest) :- ReadNumber(t[2..]);
        var count := if n.None? then 1 else n.value;
        if count > MAX_DICE_COUNT then Err(KeepOutOfRange)
        else ReadSuffixes(rest, mods.(keep := Some(Keep(t[1] in "hH", count))))
    else if |t| >= 2 && t[0] in "rR" && t[1] in "oO" then
      if mods.reroll.Some? then Err(RerollTwice)
      else if |t| < 3 || t[2] !in "<>" then Err(ComparatorExpected)
      else
        var (n, rest) :- ReadNumber(t[3..]);
        if n.None? then Err(ThresholdMissing)
        else if n.value > MAX_DIE_SIDES then Err(ThresholdOutOfRange)
        else ReadSuffixes(rest, mods.(reroll := Some(Reroll(if t[2] == '<' then Below else Above, n.value))))
    else if t != "" && t[0] == '!' then
      if mods.explode then Err(ExplodeTwice)
      else ReadSuffixes(t[1..], mods.(explode := true))
    else Ok((mods, t))
  }

  ghost function ReadTerm(s: string, sign: Sign): (r: Result<(Term, string), DiceError>)
    ensures r.Ok? ==> |r.value.1| <= |s|
  {
    var (n, rest) :- ReadNumber(s);
    var t := SkipSpace(rest);
    if t != "" && t[0] in "dD" then
      var (x, after) :- ReadNumber(t[1..]);
      var count := if n.None? then 1 else n.value;
      if x.None? then Err(SidesMissing)
      else if count == 0 || count > MAX_DICE_COUNT then Err(CountOutOfRange)
      else if x.value < MIN_DIE_SIDES || x.value > MAX_DIE_SIDES then Err(SidesOutOfRange)
      else
        var (mods, end) :- ReadSuffixes(after, Plain);
        Ok((Dice(sign, count, x.value, mods), end))
    else if n.None? then Err(TermExpected)
    else if n.value > MAX_CONSTANT then Err(ConstantOutOfRange)
    else Ok((Constant(sign, n.value), t))
  }

  /** A term and everything after it; each further term needs a sign. */
  ghost function ReadTerms(s: string, sign: Sign): Result<seq<Term>, DiceError>
    decreases |s|
  {
    var (term, rest) :- ReadTerm(s, sign);
    var t := SkipSpace(rest);
    if t == "" then Ok([term])
    else if t[0] !in "+-" then Err(SignExpected)
    else
      var more :- ReadTerms(t[1..], if t[0] == '-' then Minus else Plus);
      Ok([term] + more)
  }

  ghost function Parse(expression: string): Result<seq<Term>, DiceError> {
    var t := SkipSpace(Trim(expression));
    if t == "" then Err(EmptyExpression)
    else if t[0] in "+-" then ReadTerms(t[1..], if t[0] == '-' then Minus else Plus)
    else ReadTerms(t, Plus)
  }

  // ---------------------------------------------------------------- the range of the reader

  ghost predicate ModsInRange(mods: Mods) {
    && (mods.keep.Some? ==> mods.keep.value.n <= MAX_DICE_COUNT)
    && (mods.reroll.Some? ==> mods.reroll.value.threshold <= MAX_DIE_SIDES)
  }

  ghost predicate InRange(term: Term) {
    match term
    case Constant(_, amount) => amount <= MAX_NUMBER
    case Dice(_, count, sides, mods) =>
      1 <= count <= MAX_DICE_COUNT && MIN_DIE_SIDES <= sides <= MAX_DIE_SIDES && ModsInRange(mods)
  }

  ghost predicate AllInRange(terms: seq<Term>) {
    forall i :: 0 <= i < |terms| ==> InRange(terms[i])
  }

  lemma {:induction false} SuffixesInRange(s: string, mods: Mods)
    requires ModsInRange(mods)
    ensures ReadSuffixes(s, mods).Ok? ==> ModsInRange(ReadSuffixes(s, mods).value.0)
    decreases |s|
  {
    var t := SkipSpace(s);
    if t != "" && t[0] in "kK" {
      if mods.keep.None? && |t| >= 2 && t[1] in "hHlL" && ReadNumber(t[2..]).Ok? {
        var (n, rest) := ReadNumber(t[2..]).value;
        var count := if n.None? then 1 else n.value;
        if count <= MAX_DICE_COUNT {
          SuffixesInRange(rest, mods.(keep := Some(Keep(t[1] in "hH", count))));
        }
      }
    } else if |t| >= 2 && t[0] in "rR" && t[1] in "oO" {
      if mods.reroll.None? && |t| >= 3 && t[2] in "<>" && ReadNumber(t[3..]).Ok? {
        var (n, rest) := ReadNumber(t[3..]).value;
        if n.Some? && n.value <= MAX_DIE_SIDES {
          SuffixesInRange(rest, mods.(reroll := Some(Reroll(if t[2] == '<' then Below else Above, n.value))));
        }
      }
    } else if t != "" && t[0] == '!' && !mods.explode {
      SuffixesInRange(t[1..], mods.(explode := true));
    }
  }

  lemma TermInRange(s: string, sign: Sign)
    ensures ReadTerm(s, sign).Ok? ==> InRange(ReadTerm(s, sign).value.0)
  {
    if ReadTerm(s, sign).Ok? {
      var t := SkipSpace(ReadNumber(s).value.1);
      if t != "" && t[0] in "dD" {
        SuffixesInRange(ReadNumber(t[1..]).value.1, Plain);
      }
    }
  }

  lemma {:induction false} TermsInRange(s: string, sign: Sign)
    ensures ReadTerms(s, sign).Ok? ==> ReadTerms(s, sign).value != [] && AllInRange(ReadTerms(s, sign).value)
    decreases |s|
  {
    TermInRange(s, sign);
    if ReadTerm(s, sign).Ok? {
      var t := SkipSpace(ReadTerm(s, sign).value.1);
      if t != "" && t[0] in "+-" {
        TermsInRange(t[1..], if t[0] == '-' then Minus else Plus);
      }
    }
  }

  /** Whatever is accepted is a non-empty list of terms inside the documented limits. */
  lemma ParseInRange(expression: string)
    ensures Parse(expression).Ok? ==> Parse(expression).value != [] && AllInRange(Parse(expression).value)
  {
    var t := SkipSpace(Trim(expression));
    if t != "" {
      TermsInRange(t, Plus);
      TermsInRange(t[1..], if t[0] == '-' then Minus else Plus);
    }
  }
}
