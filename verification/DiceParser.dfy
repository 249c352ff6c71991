/** The hand-written dice parser (client/src/api/dice_notation.ts): a cursor moved by small
    closures and three loops, proved equal to the reader of DiceGrammar. */
module DiceParser {
  import opened Text
  import opened DiceGrammar

  /** The source's `{ bytes, pos }` record with the closures that move it. */
  class Cursor {
    const bytes: string
    var pos: nat

    ghost predicate Valid()
      reads this
    {
      pos <= |bytes|
    }

    /** What is still to be read. */
    ghost function Rest(): string
      reads this
      requires Valid()
    {
      bytes[pos..]
    }

    constructor (text: string)
      ensures Valid() && Rest() == text
    {
      bytes, pos := text, 0;
    }

    method SkipWs()
      requires Valid()
      modifies this
      ensures Valid() && Rest() == SkipSpace(old(Rest())) && pos >= old(pos)
    {
      while pos < |bytes| && IsSpace(bytes[pos])
        invariant Valid() && pos >= old(pos)
        invariant SkipSpace(Rest()) == SkipSpace(old(Rest()))
      {
        assert Rest()[1..] == bytes[pos + 1..];
        pos := pos + 1;
      }
    }

    /** Moves over one character. */
    method Advance()
      requires Valid() && pos < |bytes|
      modifies this
      ensures Valid() && pos == old(pos) + 1 && Rest() == old(Rest())[1..]
    {
      pos := pos + 1;
    }

    method TakeSign() returns (sign: Sign)
      requires Valid()
      modifies this
      ensures Valid() && pos >= old(pos)
      ensures var t := SkipSpace(old(Rest()));
              && sign == (if t != "" && t[0] == '-' then Minus else Plus)
              && Rest() == if t != "" && t[0] in "+-" then t[1..] else t
    {
      SkipWs();
      sign := Plus;
      if pos < |bytes| && bytes[pos] == '+' {
        Advance();
      } else if pos < |bytes| && bytes[pos] == '-' {
        Advance();
        sign := Minus;
      }
    }

    /** Reads digits, giving up as soon as the value passes the limit. */
    method ParseNumber() returns (r: Result<Option<nat>, DiceError>)
      requires Valid()
      modifies this
      ensures Valid() && pos >= old(pos)
      ensures match ReadNumber(old(Rest()))
              case Err(e) => r == Err(e)
              case Ok((n, rest)) => r == Ok(n) && Rest() == rest
    {
      hide SkipSpace, DigitRun;
      SkipWs();
      var start := pos;
      var value := 0;
      ghost var digits := DigitRun(Rest());
      while pos < |bytes| && IsDigit(bytes[pos])
        invariant Valid() && start <= pos <= start + |digits|
        invariant digits == DigitRun(bytes[start..])
        invariant value == NumberOf(digits[..pos - start]) && value <= MAX_NUMBER
      {
        NumberOfPrefix(digits, pos - start);
        value := value * 10 + DigitValue(bytes[pos]);
        if value > MAX_NUMBER { return Err(NumberTooLarge); }
        Advance();
      }
      assert digits[..pos - start] == digits;
      return Ok(if pos == start then None else Some(value));
    }

    /** The suffix loop of a dice term. */
    method ParseSuffixes() returns (r: Result<Mods, DiceError>)
      requires Valid()
      modifies this
      ensures Valid() && pos >= old(pos)
      ensures match ReadSuffixes(old(Rest()), Plain)
              case Err(e) => r == Err(e)
              case Ok((mods, rest)) => r == Ok(mods) && Rest() == rest
    {
      hide ReadNumber;
      var mods := Plain;
      while true
        invariant Valid() && pos >= old(pos)
        invariant ReadSuffixes(Rest(), mods) == ReadSuffixes(old(Rest()), Plain)
        decreases |bytes| - pos
      {
        SkipWs();
        ghost var t := Rest();
        assert SkipSpace(t) == t;
        if pos < |bytes| && bytes[pos] in "kK" {
          if mods.keep.Some? { return Err(KeepTwice); }
          if pos + 1 >= |bytes| || bytes[pos + 1] !in "hHlL" { return Ok(mods); }
          var highest := bytes[pos + 1] in "hH";
          Advance();
          Advance();
          assert Rest() == t[2..];
          var n :- ParseNumber();
          var count := if n.None? then 1 else n.value;
          if count > MAX_DICE_COUNT { return Err(KeepOutOfRange); }
          mods := mods.(keep := Some(Keep(highest, count)));
        } else if pos + 1 < |bytes| && bytes[pos] in "rR" && bytes[pos + 1] in "oO" {
          if mods.reroll.Some? { return Err(RerollTwice); }
          Advance();
          Advance();
          assert Rest() == t[2..];
          if pos >= |bytes| || bytes[pos] !in "<>" { return Err(ComparatorExpected); }
          var comparator := if bytes[pos] == '<' then Below else Above;
          Advance();
          assert Rest() == t[3..];
          var n :- ParseNumber();
          if n.None? { return Err(ThresholdMissing); }
          if n.value > MAX_DIE_SIDES { return Err(ThresholdOutOfRange); }
          mods := mods.(reroll := Some(Reroll(comparator, n.value)));
        } else if pos < |bytes| && bytes[pos] == '!' {
          if mods.explode { return Err(ExplodeTwice); }
          mods := mods.(explode := true);
          Advance();
        } else {
          return Ok(mods);
        }
      }
    }

    method ParseTerm(sign: Sign) returns (r: Result<Term, DiceError>)
      requires Valid()
      modifies this
      ensures Valid() && pos >= old(pos)
      ensures match ReadTerm(old(Rest()), sign)
              case Err(e) => r == Err(e)
              case Ok((term, rest)) => r == Ok(term) && Rest() == rest
    {
      hide ReadNumber, ReadSuffixes, SkipSpace;
      var n :- ParseNumber();
      SkipWs();
      if pos < |bytes| && bytes[pos] in "dD" {
        Advance();
        var x :- ParseNumber();
        if x.None? { return Err(SidesMissing); }
        var count := if n.None? then 1 else n.value;
        if count == 0 || count > MAX_DICE_COUNT { return Err(CountOutOfRange); }
        if x.value < MIN_DIE_SIDES || x.value > MAX_DIE_SIDES { return Err(SidesOutOfRange); }
        var mods :- ParseSuffixes();
        return Ok(Dice(sign, count, x.value, mods));
      }
      if n.None? { return Err(TermExpected); }
      if n.value > MAX_CONSTANT { return Err(ConstantOutOfRange); }
      return Ok(Constant(sign, n.value));
    }
  }

  /** `terms` were read already, `rest` is what reading on gives. */
  ghost function After(terms: seq<Term>, rest: Result<seq<Term>, DiceError>): Result<seq<Term>, DiceError> {
    if rest.Err? then rest else Ok(terms + rest.value)
  }

  lemma AfterNone(rest: Result<seq<Term>, DiceError>)
    ensures After([], rest) == rest
  {
    if rest.Ok? {
      assert [] + rest.value == rest.value;
    }
  }

  /** Reading one more term, with the terms read so far in front. */
  lemma AfterOne(terms: seq<Term>, s: string, sign: Sign)
    requires ReadTerm(s, sign).Ok?
    ensures var (term, rest) := ReadTerm(s, sign).value;
            var t := SkipSpace(rest);
            After(terms, ReadTerms(s, sign)) ==
            if t == "" then Ok(terms + [term])
            else if t[0] !in "+-" then Err(SignExpected)
            else After(terms + [term], ReadTerms(t[1..], if t[0] == '-' then Minus else Plus))
  {
    var (term, rest) := ReadTerm(s, sign).value;
    var t := SkipSpace(rest);
    if t != "" && t[0] in "+-" {
      var more := ReadTerms(t[1..], if t[0] == '-' then Minus else Plus);
      if more.Ok? {
        assert terms + [term] + more.value == terms + ([term] + more.value);
      }
    }
  }

  /** The source's parser reads exactly what the grammar's reader reads. */
  method ParseExpression(expression: string) returns (r: Result<seq<Term>, DiceError>)
    ensures r == Parse(expression)
  {
    var src := Trim(expression);
    var p := new Cursor(src);
    p.SkipWs();
    if p.pos >= |p.bytes| { return Err(EmptyExpression); }
    SkipSpaceTwice(src);
    var sign := p.TakeSign();
    var terms: seq<Term> := [];
    AfterNone(ReadTerms(p.Rest(), sign));
    while true
      invariant p.Valid()
      invariant After(terms, ReadTerms(p.Rest(), sign)) == Parse(expression)
      decreases |p.bytes| - p.pos
    {
      ghost var s := p.Rest();
      var attempt := p.ParseTerm(sign);
      if attempt.Err? { return Err(attempt.error); }
      AfterOne(terms, s, sign);
      terms := terms + [attempt.value];
      SkipSpaceTwice(p.Rest());
      p.SkipWs();
      if p.pos >= |p.bytes| { return Ok(terms); }
      if p.bytes[p.pos] !in "+-" { return Err(SignExpected); }
      sign := p.TakeSign();
    }
  }
}
