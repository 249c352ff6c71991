/** The cursor texts of the timeline (python/vtt_orchestrator/timeline.py), spelled out: which texts name a position and
    which position that is. */
module TimelineCursor {
  import opened Text
  import opened Timeline

  ghost predicate Spaces(s: string) {
    forall i :: 0 <= i < |s| ==> IsPythonSpace(s[i])
  }

  /** Digits, with single underscores between them; behind a digit the text may be empty or begin with one. */
  ghost predicate Grouped(s: string, afterDigit: bool) {
    && (s == "" ==> afterDigit)
    && (s != "" ==> (IsDigit(s[0]) || afterDigit) && IsDigit(s[|s| - 1]))
    && (forall i :: 0 <= i < |s| ==> IsDigit(s[i]) || s[i] == '_')
    && forall i :: 0 < i < |s| ==> IsDigit(s[i - 1]) || IsDigit(s[i])
  }

  ghost function DigitsOf(s: string): string {
    if s == "" then "" else if s[0] == '_' then DigitsOf(s[1..]) else [s[0]] + DigitsOf(s[1..])
  }

  lemma GroupedStep(s: string, afterDigit: bool)
    requires s != ""
    ensures Grouped(s, afterDigit) <==>
            if IsDigit(s[0]) then Grouped(s[1..], true) else s[0] == '_' && afterDigit && Grouped(s[1..], false)
  {
    var rest := s[1..];
    if (if IsDigit(s[0]) then Grouped(rest, true) else s[0] == '_' && afterDigit && Grouped(rest, false)) {
      forall i | 0 < i < |s| ensures (IsDigit(s[i]) || s[i] == '_') && (IsDigit(s[i - 1]) || IsDigit(s[i])) {
        assert s[i] == rest[i - 1];
      }
    }
  }

  lemma {:induction false} DigitsAreRead(s: string, afterDigit: bool)
    ensures ReadDigits(s, afterDigit) == if Grouped(s, afterDigit) then Some(DigitsOf(s)) else None
  {
    if s != "" {
      DigitsAreRead(s[1..], IsDigit(s[0]));
      GroupedStep(s, afterDigit);
    }
  }

  // ---------------------------------------------------------------- Python's integers

  /** White space on both sides, an optional sign, and grouped digits. */
  ghost predicate SpellsInt(left: string, sign: string, digits: string, right: string, n: int) {
    && Spaces(left) && Spaces(right) && sign in {"", "+", "-"} && Grouped(digits, false)
    && n == if sign == "-" then -(NumberOf(DigitsOf(digits)) as int) else NumberOf(DigitsOf(digits))
  }

  ghost predicate IsInt(text: string, n: int) {
    exists left, sign, digits, right ::
      text == left + (sign + digits + right) && SpellsInt(left, sign, digits, right, n)
  }

  lemma {:induction false} StripLeftAt(left: string, rest: string)
    requires Spaces(left) && (rest != "" ==> !IsPythonSpace(rest[0]))
    ensures StripLeft(left + rest) == rest
  {
    if left == "" { assert left + rest == rest; }
    else {
      assert (left + rest)[1..] == left[1..] + rest;
      StripLeftAt(left[1..], rest);
    }
  }

  lemma {:induction false} StripRightAt(rest: string, right: string)
    requires Spaces(right) && (rest != "" ==> !IsPythonSpace(rest[|rest| - 1]))
    ensures StripRight(rest + right) == rest
  {
    if right == "" { assert rest + right == rest; }
    else {
      assert (rest + right)[..|rest + right| - 1] == rest + right[..|right| - 1];
      StripRightAt(rest, right[..|right| - 1]);
    }
  }

  lemma {:induction false} StrippedLeft(s: string) returns (left: string)
    ensures Spaces(left) && s == left + StripLeft(s)
  {
    left := "";
    if s != "" && IsPythonSpace(s[0]) {
      var rest := StrippedLeft(s[1..]);
      left := [s[0]] + rest;
    }
  }

  lemma {:induction false} StrippedRight(s: string) returns (right: string)
    ensures Spaces(right) && s == StripRight(s) + right
  {
    right := "";
    if s != "" && IsPythonSpace(s[|s| - 1]) {
      var rest := StrippedRight(s[..|s| - 1]);
      right := rest + [s[|s| - 1]];
    }
  }

  /** A sign and digits, without white space around them. */
  lemma SignedIsRead(sign: string, digits: string)
    requires sign in {"", "+", "-"} && Grouped(digits, false)
    ensures var s := sign + digits;
            && (s[0] in "+-" <==> sign != "")
            && ReadDigits(if s[0] in "+-" then s[1..] else s, false) == Some(DigitsOf(digits))
            && (sign == "-" <==> s[0] == '-')
  {
    DigitsAreRead(digits, false);
    assert sign != "" ==> (sign + digits)[1..] == digits;
    assert sign == "" ==> sign + digits == digits;
  }

  lemma SpelledIsRead(left: string, sign: string, digits: string, right: string, n: int)
    requires SpellsInt(left, sign, digits, right, n)
    ensures ReadInt(left + (sign + digits + right)) == Some(n)
  {
    hide StripLeft, StripRight, ReadDigits, DigitsOf, NumberOf;
    var core := sign + digits;
    StripLeftAt(left, core + right);
    StripRightAt(core, right);
    SignedIsRead(sign, digits);
  }

  lemma StripIsBoth(text: string)
    ensures Strip(text) == StripRight(StripLeft(text))
  {
  }

  lemma ReadIsSpelled(text: string)
    requires ReadInt(text).Some?
    ensures IsInt(text, ReadInt(text).value)
  {
    hide Strip, StripLeft, StripRight, Grouped, ReadDigits, DigitsOf, NumberOf;
    var left := StrippedLeft(text);
    var right := StrippedRight(StripLeft(text));
    var s := Strip(text);
    StripIsBoth(text);
    var signed := s != "" && s[0] in "+-";
    var sign, digits := if signed then [s[0]] else "", if signed then s[1..] else s;
    assert s == sign + digits;
    assert text == left + (s + right);
    DigitsAreRead(digits, false);
    assert SpellsInt(left, sign, digits, right, ReadInt(text).value);
  }

  /** A text reads as n if and only if it spells n: white space may surround it, a sign may precede it, and single
      underscores may stand between its digits. */
  lemma IntIsReadExactlyWhen(text: string, n: int)
    ensures ReadInt(text) == Some(n) <==> IsInt(text, n)
  {
    if ReadInt(text) == Some(n) { ReadIsSpelled(text); }
    if IsInt(text, n) {
      var left, sign, digits, right :|
        text == left + (sign + digits + right) && SpellsInt(left, sign, digits, right, n);
      SpelledIsRead(left, sign, digits, right, n);
    }
  }

  // ---------------------------------------------------------------- cursors

  /** Position p holds the first colon. */
  ghost predicate FirstColon(cursor: string, p: nat) {
    p < |cursor| && cursor[p] == ':' && ':' !in cursor[..p]
  }

  /** A number, a colon, and the id up to the end. */
  ghost predicate NamesPosition(cursor: string, m: Mark) {
    exists p: nat :: FirstColon(cursor, p) && IsInt(cursor[..p], m.ms) && cursor[p + 1..] == m.id
  }

  lemma {:induction false} ColonIsFirst(s: string)
    ensures BeforeColon(s) <= |s|
    ensures BeforeColon(s) < |s| ==> FirstColon(s, BeforeColon(s))
    ensures forall p: nat :: FirstColon(s, p) ==> p == BeforeColon(s)
  {
    if s != "" && s[0] != ':' {
      ColonIsFirst(s[1..]);
      var n := BeforeColon(s[1..]);
      assert s[..n + 1] == [s[0]] + s[1..][..n];
      forall p: nat | FirstColon(s, p) ensures p == BeforeColon(s) {
        assert s[1..p] == s[1..][..p - 1];
        assert forall c :: c in s[1..p] ==> c in s[..p];
        assert FirstColon(s[1..], p - 1);
      }
    } else {
      forall p: nat | 0 < p < |s| ensures s[0] in s[..p] {
        assert s[..p][0] == s[0];
      }
    }
  }

  /** A cursor leads to the position it names, and to the beginning if and only if it names that or none. */
  lemma CursorIsReadExactlyWhen(cursor: string, m: Mark)
    ensures DecodeCursor(cursor) == m <==>
            NamesPosition(cursor, m) || (m == Beginning && !exists other :: NamesPosition(cursor, other))
  {
    ColonIsFirst(cursor);
    var n := BeforeColon(cursor);
    if n < |cursor| {
      forall ms ensures ReadInt(cursor[..n]) == Some(ms) <==> IsInt(cursor[..n], ms) {
        IntIsReadExactlyWhen(cursor[..n], ms);
      }
      if ReadInt(cursor[..n]).Some? {
        assert NamesPosition(cursor, Mark(ReadInt(cursor[..n]).value, cursor[n + 1..]));
      }
    }
  }

  /** A numeral as it is printed: no zero in front of another digit. */
  ghost predicate Plain(digits: string) {
    digits != "" && AllDigits(digits) && (digits[0] == '0' ==> digits == "0")
  }

  lemma {:induction false} DecimalIsPlain(n: nat)
    ensures Plain(Decimal(n)) && (n > 0 ==> Decimal(n)[0] != '0')
  {
    if n >= 10 { DecimalIsPlain(n / 10); }
  }

  /** The cursor of an entry with an id is its time, a minus sign in front only if that is negative and no zero before
      another digit, then a colon and the id; an entry without one has an empty cursor. */
  lemma CursorIsSpelled(e: Entry)
    ensures e.sequenceId == "" <==> EncodeCursor(e) == ""
    ensures e.sequenceId != "" ==>
              exists digits :: Plain(digits) && NumberOf(digits) == (if e.ms < 0 then -e.ms else e.ms) &&
                               EncodeCursor(e) == (if e.ms < 0 then "-" else "") + digits + ":" + e.sequenceId
  {
    var n: nat := if e.ms < 0 then -e.ms else e.ms;
    DecimalIsPlain(n);
    NumberOfDecimal(n);
    assert e.ms >= 0 ==> "" + Decimal(n) + ":" + e.sequenceId == Decimal(n) + ":" + e.sequenceId;
    assert Plain(Decimal(n)) && NumberOf(Decimal(n)) == n;
  }
}
