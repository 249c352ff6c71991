/** The session timeline (python/vtt_orchestrator/timeline.py and its route in server.py): two
    streams merged by time, and an opaque cursor that pages through the result. */
module Timeline {
  import opened Text

  datatype Kind = Engine | Narrative

  /** One timeline entry; a missing sequence id is the empty text. */
  datatype Entry = Entry(ms: int, kind: Kind, sequenceId: string, channel: string, actorId: Option<string>,
                         actorName: Option<string>, summary: string, eventType: Option<string>,
                         referenced: Option<seq<string>>, isPrivate: bool)

  const DEFAULT_LIMIT := 100
  const MAX_LIMIT := 500

  // ---------------------------------------------------------------- order of texts

  /** Texts compare character by character, a proper prefix first. */
  predicate TextLess(a: string, b: string) {
    if b == "" then false
    else if a == "" then true
    else if a[0] != b[0] then a[0] < b[0]
    else TextLess(a[1..], b[1..])
  }

  lemma {:induction false} TextOrder(a: string, b: string)
    ensures !(TextLess(a, b) && TextLess(b, a)) && !TextLess(a, a)
    ensures TextLess(a, b) || TextLess(b, a) || a == b
  {
    if a != "" && b != "" {
      TextOrder(a[1..], b[1..]);
      assert a == [a[0]] + a[1..] && b == [b[0]] + b[1..];
    }
    if a != "" {
      TextOrder(a[1..], a[1..]);
    }
  }

  lemma {:induction false} TextTransitive(a: string, b: string, c: string)
    requires TextLess(a, b) && TextLess(b, c)
    ensures TextLess(a, c)
  {
    if a != "" && a[0] == b[0] == c[0] {
      TextTransitive(a[1..], b[1..], c[1..]);
    }
  }

  // ---------------------------------------------------------------- order of entries

  datatype Mark = Mark(ms: int, id: string)

  /** The cursor's order: time, then sequence id. */
  predicate MarkLess(a: Mark, b: Mark) {
    a.ms < b.ms || (a.ms == b.ms && TextLess(a.id, b.id))
  }

  function MarkOf(e: Entry): Mark {
    Mark(e.ms, e.sequenceId)
  }

  function Rank(k: Kind): nat {
    if k.Engine? then 0 else 1
  }

  /** The sort's order: time, then engine before narrative, then sequence id. */
  predicate SortLess(a: Entry, b: Entry) {
    a.ms < b.ms || (a.ms == b.ms && (Rank(a.kind) < Rank(b.kind) ||
                                     (a.kind == b.kind && TextLess(a.sequenceId, b.sequenceId))))
  }

  /** An entry with the id its formatter gives it: the stream's letter, an underscore, a number. */
  predicate Formatted(e: Entry) {
    |e.sequenceId| >= 2 && e.sequenceId[0] == (if e.kind.Engine? then 'e' else 'n') && e.sequenceId[1] == '_'
  }

  /** On formatted entries the two orders are one: the prefix of the id repeats the kind. */
  lemma SortOrderIsCursorOrder(a: Entry, b: Entry)
    requires Formatted(a) && Formatted(b)
    ensures SortLess(a, b) <==> MarkLess(MarkOf(a), MarkOf(b))
  {
  }

  lemma MarkOrder(a: Mark, b: Mark, c: Mark)
    ensures !MarkLess(a, a) && !(MarkLess(a, b) && MarkLess(b, a))
    ensures MarkLess(a, b) || MarkLess(b, a) || a == b
    ensures MarkLess(a, b) && MarkLess(b, c) ==> MarkLess(a, c)
  {
    TextOrder(a.id, b.id);
    TextOrder(a.id, a.id);
    if TextLess(a.id, b.id) && TextLess(b.id, c.id) {
      TextTransitive(a.id, b.id, c.id);
    }
  }

  // ---------------------------------------------------------------- merging

  /** A stable insertion: behind everything that does not sort after it. */
  function Insert(e: Entry, sorted: seq<Entry>): seq<Entry> {
    if sorted == [] then [e]
    else if SortLess(e, sorted[0]) then [e] + sorted
    else [sorted[0]] + Insert(e, sorted[1..])
  }

  /** The stable sort of the library, by insertion. */
  function Sort(entries: seq<Entry>): seq<Entry> {
    if entries == [] then [] else Insert(entries[|entries| - 1], Sort(entries[..|entries| - 1]))
  }

  function MergeTimeline(engine: seq<Entry>, narrative: seq<Entry>): seq<Entry> {
    Sort(engine + narrative)
  }

  /** Strictly increasing for the cursor. */
  ghost predicate Increasing(s: seq<Entry>) {
    s == [] || (AllAfter(s[1..], MarkOf(s[0])) && Increasing(s[1..]))
  }

  /** Every entry lies strictly behind the mark. */
  ghost predicate AllAfter(s: seq<Entry>, m: Mark) {
    s == [] || (MarkLess(m, MarkOf(s[0])) && AllAfter(s[1..], m))
  }

  ghost predicate AllFormatted(s: seq<Entry>) {
    s == [] || (Formatted(s[0]) && AllFormatted(s[1..]))
  }

  ghost predicate NewMark(s: seq<Entry>, m: Mark) {
    s == [] || (MarkOf(s[0]) != m && NewMark(s[1..], m))
  }

  ghost predicate DistinctMarks(s: seq<Entry>) {
    s == [] || (NewMark(s[..|s| - 1], MarkOf(s[|s| - 1])) && DistinctMarks(s[..|s| - 1]))
  }

  lemma {:induction false} AllAfterTransitive(s: seq<Entry>, low: Mark, high: Mark)
    requires AllAfter(s, high) && MarkLess(low, high)
    ensures AllAfter(s, low)
  {
    if s != [] {
      MarkOrder(low, high, MarkOf(s[0]));
      AllAfterTransitive(s[1..], low, high);
    }
  }

  lemma {:induction false} InsertMembers(e: Entry, s: seq<Entry>)
    ensures forall m :: AllAfter(Insert(e, s), m) <==> AllAfter(s, m) && MarkLess(m, MarkOf(e))
    ensures AllFormatted(Insert(e, s)) <==> AllFormatted(s) && Formatted(e)
    ensures multiset(Insert(e, s)) == multiset(s) + multiset{e}
  {
    if s != [] && !SortLess(e, s[0]) {
      InsertMembers(e, s[1..]);
      assert s == [s[0]] + s[1..];
    }
  }

  lemma {:induction false} InsertIncreasing(e: Entry, s: seq<Entry>)
    requires Increasing(s) && AllFormatted(s) && Formatted(e) && NewMark(s, MarkOf(e))
    ensures Increasing(Insert(e, s))
  {
    if s != [] {
      SortOrderIsCursorOrder(e, s[0]);
      MarkOrder(MarkOf(e), MarkOf(s[0]), MarkOf(e));
      if SortLess(e, s[0]) {
        AllAfterTransitive(s[1..], MarkOf(e), MarkOf(s[0]));
        assert ([e] + s)[1..] == s;
      } else {
        InsertIncreasing(e, s[1..]);
        InsertMembers(e, s[1..]);
      }
    }
  }

  lemma {:induction false} InsertNewMark(e: Entry, s: seq<Entry>, m: Mark)
    ensures NewMark(Insert(e, s), m) <==> NewMark(s, m) && MarkOf(e) != m
  {
    if s != [] && !SortLess(e, s[0]) { InsertNewMark(e, s[1..], m); }
  }

  lemma {:induction false} NewMarkSort(s: seq<Entry>, m: Mark)
    ensures NewMark(Sort(s), m) <==> NewMark(s, m)
  {
    if s != [] {
      NewMarkSort(s[..|s| - 1], m);
      InsertNewMark(s[|s| - 1], Sort(s[..|s| - 1]), m);
      NewMarkAppend(s[..|s| - 1], s[|s| - 1], m);
      assert s == s[..|s| - 1] + [s[|s| - 1]];
    }
  }

  lemma {:induction false} NewMarkAppend(s: seq<Entry>, e: Entry, m: Mark)
    ensures NewMark(s + [e], m) <==> NewMark(s, m) && MarkOf(e) != m
    ensures AllFormatted(s + [e]) <==> AllFormatted(s) && Formatted(e)
  {
    if s == [] {
      assert s + [e] == [e] && [e][1..] == [];
    } else {
      assert (s + [e])[1..] == s[1..] + [e];
      NewMarkAppend(s[1..], e, m);
    }
  }

  /** Entries of the two formatters with distinct marks merge into one strictly increasing feed of
      exactly those entries. */
  lemma {:induction false} SortIsIncreasing(s: seq<Entry>)
    requires AllFormatted(s) && DistinctMarks(s)
    ensures Increasing(Sort(s)) && AllFormatted(Sort(s)) && multiset(Sort(s)) == multiset(s)
  {
    if s != [] {
      var front, e := s[..|s| - 1], s[|s| - 1];
      assert s == front + [e];
      NewMarkAppend(front, e, MarkOf(e));
      SortIsIncreasing(front);
      NewMarkSort(front, MarkOf(e));
      InsertIncreasing(e, Sort(front));
      InsertMembers(e, Sort(front));
    }
  }

  // ---------------------------------------------------------------- the cursor

  function PrintInt(n: int): string {
    if n < 0 then "-" + Decimal(-n) else Decimal(n)
  }

  /** Digits with single underscores between them, as Python's `int` accepts; the value drops the underscores. */
  ghost function ReadDigits(s: string, afterDigit: bool): Option<string> {
    if s == "" then (if afterDigit then Some("") else None)
    else if IsDigit(s[0]) then
      (match ReadDigits(s[1..], true)
       case None => None
       case Some(rest) => Some([s[0]] + rest))
    else if s[0] == '_' && afterDigit then ReadDigits(s[1..], false)
    else None
  }

  /** Python's `int` on ASCII text. */
  ghost function ReadInt(text: string): Option<int> {
    var s := Strip(text);
    var signed := s != "" && s[0] in "+-";
    match ReadDigits(if signed then s[1..] else s, false)
    case None => None
    case Some(digits) => Some(if signed && s[0] == '-' then -(NumberOf(digits) as int) else NumberOf(digits) as int)
  }

  /** Points at an entry; an entry without id gives no position. */
  function EncodeCursor(e: Entry): string {
    if e.sequenceId == "" then "" else PrintInt(e.ms) + ":" + e.sequenceId
  }

  function BeforeColon(s: string): nat {
    if s == "" || s[0] == ':' then 0 else 1 + BeforeColon(s[1..])
  }

  const Beginning := Mark(0, "")

  /** Reads a position; anything that is not one means the beginning. */
  ghost function DecodeCursor(cursor: string): Mark {
    var n := BeforeColon(cursor);
    if n >= |cursor| then Beginning
    else
      match ReadInt(cursor[..n])
      case None => Beginning
      case Some(ms) => Mark(ms, cursor[n + 1..])
  }

  lemma {:induction false} ReadPlainDigits(digits: string, afterDigit: bool)
    requires AllDigits(digits) && (digits != "" || afterDigit)
    ensures ReadDigits(digits, afterDigit) == Some(digits)
  {
    if digits != "" {
      ReadPlainDigits(digits[1..], true);
      assert digits == [digits[0]] + digits[1..];
    }
  }

  lemma StripSolid(s: string)
    requires s != "" && !IsPythonSpace(s[0]) && !IsPythonSpace(s[|s| - 1])
    ensures Strip(s) == s
  {
  }

  lemma ReadUnsigned(digits: string)
    requires digits != "" && AllDigits(digits)
    ensures ReadInt(digits) == Some(NumberOf(digits) as int)
  {
    StripSolid(digits);
    ReadPlainDigits(digits, false);
  }

  lemma ReadNegative(digits: string)
    requires digits != "" && AllDigits(digits)
    ensures ReadInt("-" + digits) == Some(-(NumberOf(digits) as int))
  {
    var s := "-" + digits;
    StripSolid(s);
    ReadPlainDigits(digits, false);
    assert s[0] == '-' && s[1..] == digits;
  }

  lemma ReadNonnegative(n: nat)
    ensures ReadInt(Decimal(n)) == Some(n as int)
  {
    NumberOfDecimal(n);
    ReadUnsigned(Decimal(n));
  }

  lemma ReadPositiveNegated(n: nat)
    ensures ReadInt("-" + Decimal(n)) == Some(-(n as int))
  {
    NumberOfDecimal(n);
    ReadNegative(Decimal(n));
  }

  lemma ReadPrintedInt(n: int)
    ensures ReadInt(PrintInt(n)) == Some(n)
  {
    if n < 0 { ReadPositiveNegated(-n); } else { ReadNonnegative(n); }
  }

  lemma {:induction false} ColonAfter(digits: string, rest: string)
    requires forall i :: 0 <= i < |digits| ==> digits[i] != ':'
    ensures BeforeColon(digits + ([':'] + rest)) == |digits|
  {
    if digits == "" {
      assert digits + ([':'] + rest) == [':'] + rest;
    } else {
      assert (digits + ([':'] + rest))[1..] == digits[1..] + ([':'] + rest);
      ColonAfter(digits[1..], rest);
    }
  }

  /** The cursor of an entry with an id leads back to exactly its position. */
  lemma CursorRoundTrip(e: Entry)
    requires e.sequenceId != ""
    ensures DecodeCursor(EncodeCursor(e)) == MarkOf(e)
  {
    var ms := PrintInt(e.ms);
    ReadPrintedInt(e.ms);
    ColonAfter(ms, e.sequenceId);
    var cursor := EncodeCursor(e);
    assert cursor == ms + ([':'] + e.sequenceId);
    assert cursor[..|ms|] == ms && cursor[|ms| + 1..] == e.sequenceId;
  }

  // ---------------------------------------------------------------- pages

  function AfterMark(s: seq<Entry>, m: Mark): seq<Entry> {
    if s == [] then []
    else if MarkLess(m, MarkOf(s[0])) then [s[0]] + AfterMark(s[1..], m)
    else AfterMark(s[1..], m)
  }

  function Take<T>(s: seq<T>, n: nat): seq<T> {
    if |s| <= n then s else s[..n]
  }

  function Clamp(limit: int): (n: nat)
    ensures 1 <= n <= MAX_LIMIT
  {
    if limit <= 0 then DEFAULT_LIMIT else if limit > MAX_LIMIT then MAX_LIMIT else limit
  }

  /** The first entries strictly behind a position. */
  function PageAt(feed: seq<Entry>, at: Mark, limit: int): seq<Entry> {
    Take(AfterMark(feed, at), Clamp(limit))
  }

  ghost function Page(feed: seq<Entry>, cursor: string, limit: int): seq<Entry> {
    PageAt(feed, DecodeCursor(cursor), limit)
  }

  lemma AfterMarkStep(feed: seq<Entry>, i: nat, at: Mark)
    requires i < |feed|
    ensures AfterMark(feed[i..], at) ==
            (if MarkLess(at, MarkOf(feed[i])) then [feed[i]] else []) + AfterMark(feed[i + 1..], at)
    ensures MarkLess(at, MarkOf(feed[i])) <==> !(MarkLess(MarkOf(feed[i]), at) || MarkOf(feed[i]) == at)
  {
    assert feed[i..][1..] == feed[i + 1..];
    MarkOrder(MarkOf(feed[i]), at, at);
  }

  lemma TakeFront(page: seq<Entry>, rest: seq<Entry>, most: nat)
    ensures |page| == most || (|page| < most && rest == []) ==> Take(page + rest, most) == page
  {
  }

  /** The source's loop: skip up to the cursor, collect, stop when the page is full. */
  method FilterAfterCursor(feed: seq<Entry>, at: Mark, limit: int) returns (page: seq<Entry>)
    ensures page == PageAt(feed, at, limit)
  {
    hide AfterMark, MarkLess, Take;
    var most := Clamp(limit);
    page := [];
    var i := 0;
    ghost var all := AfterMark(feed, at);
    assert feed[0..] == feed;
    while i < |feed|
      invariant i <= |feed| && |page| < most
      invariant all == page + AfterMark(feed[i..], at)
    {
      var entry := feed[i];
      var mark := MarkOf(entry);
      AfterMarkStep(feed, i, at);
      i := i + 1;
      if MarkLess(mark, at) || mark == at { continue; }
      page := page + [entry];
      if |page| >= most { break; }
    }
    assert all == page + AfterMark(feed[i..], at);
    if i == |feed| { NothingLeft(feed, at); }
    TakeFront(page, AfterMark(feed[i..], at), most);
  }

  lemma NothingLeft(feed: seq<Entry>, at: Mark)
    ensures AfterMark(feed[|feed|..], at) == []
  {
  }

  /** The route's answer: a page and, when it is full, where to go on. */
  method SessionTimeline(feed: seq<Entry>, ghost cursor: string, at: Mark, limit: nat)
    returns (page: seq<Entry>, nextCursor: Option<string>, hasMore: bool)
    requires 1 <= limit <= MAX_LIMIT && at == DecodeCursor(cursor)
    ensures page == Page(feed, cursor, limit)
    ensures hasMore <==> |page| == limit
    ensures nextCursor == if |page| == limit then Some(EncodeCursor(page[|page| - 1])) else None
  {
    page := FilterAfterCursor(feed, at, limit);
    nextCursor := None;
    if |page| == limit {
      nextCursor := Some(EncodeCursor(page[|page| - 1]));
    }
    hasMore := nextCursor.Some?;
  }

  // ---------------------------------------------------------------- following positions

  ghost predicate AllNamed(s: seq<Entry>) {
    forall i :: 0 <= i < |s| ==> s[i].sequenceId != ""
  }

  /** Every feed a reader met: sorted for the cursor, all entries with ids. */
  ghost predicate GoodFeeds(feeds: seq<seq<Entry>>) {
    forall i :: 0 <= i < |feeds| ==> Increasing(feeds[i]) && AllNamed(feeds[i])
  }

  /** What a reader collects who goes on behind the last entry of each full page; the i-th request
      meets the i-th feed, so entries may have come and gone between requests. */
  ghost function CollectedFrom(feeds: seq<seq<Entry>>, at: Mark, limit: nat): seq<Entry> {
    if feeds == [] then []
    else
      var page := PageAt(feeds[0], at, limit);
      if |page| < limit || page == [] then page
      else page + CollectedFrom(feeds[1..], MarkOf(page[|page| - 1]), limit)
  }

  ghost predicate FinishedFrom(feeds: seq<seq<Entry>>, at: Mark, limit: nat) {
    && feeds != []
    && var page := PageAt(feeds[0], at, limit);
       |page| < limit || page == [] || FinishedFrom(feeds[1..], MarkOf(page[|page| - 1]), limit)
  }

  lemma {:induction false} AfterMarkIncreasing(s: seq<Entry>, m: Mark)
    requires Increasing(s)
    ensures Increasing(AfterMark(s, m)) && AllAfter(AfterMark(s, m), m)
    ensures forall k :: AllAfter(s, k) ==> AllAfter(AfterMark(s, m), k)
    ensures AllNamed(s) ==> AllNamed(AfterMark(s, m))
    ensures AllAfter(s, m) ==> AfterMark(s, m) == s
  {
    if s != [] {
      AfterMarkIncreasing(s[1..], m);
    }
  }

  lemma {:induction false} AfterMarkMembers(s: seq<Entry>, m: Mark, e: Entry)
    ensures e in AfterMark(s, m) <==> e in s && MarkLess(m, MarkOf(e))
  {
    if s != [] {
      AfterMarkMembers(s[1..], m, e);
      assert e in s <==> e == s[0] || e in s[1..];
    }
  }

  lemma {:induction false} AllAfterMember(s: seq<Entry>, m: Mark, e: Entry)
    requires AllAfter(s, m) && e in s
    ensures MarkLess(m, MarkOf(e))
  {
    if e != s[0] { AllAfterMember(s[1..], m, e); }
  }

  /** Splitting a strictly increasing list leaves everything behind the last entry of the front. */
  lemma {:induction false} SplitIncreasing(s: seq<Entry>, n: nat)
    requires Increasing(s) && 0 < n <= |s|
    ensures Increasing(s[..n]) && Increasing(s[n..]) && AllAfter(s[n..], MarkOf(s[n - 1]))
    ensures forall m :: AllAfter(s, m) ==> AllAfter(s[..n], m)
    ensures AfterMark(s, MarkOf(s[n - 1])) == s[n..]
  {
    assert s[..n][1..] == s[1..][..n - 1];
    if n == 1 {
      AfterMarkIncreasing(s[1..], MarkOf(s[0]));
      MarkOrder(MarkOf(s[0]), MarkOf(s[0]), MarkOf(s[0]));
    } else {
      SplitIncreasing(s[1..], n - 1);
      assert s[1..][n - 1..] == s[n..] && s[1..][n - 2] == s[n - 1] && s[n - 1] in s[1..];
      AllAfterMember(s[1..], MarkOf(s[0]), s[n - 1]);
      MarkOrder(MarkOf(s[0]), MarkOf(s[n - 1]), MarkOf(s[0]));
    }
  }

  /** What a page has to be: a sorted front of what lies behind the position, complete if not full;
      its last entry's position continues exactly behind it. */
  ghost predicate GoodPage(all: seq<Entry>, page: seq<Entry>, at: Mark, limit: nat) {
    && Increasing(page) && AllAfter(page, at)
    && (|page| < limit ==> page == all)
    && (page != [] ==>
          var last := MarkOf(page[|page| - 1]);
          all == page + AfterMark(all, last) && AllAfter(AfterMark(all, last), last) && MarkLess(at, last))
  }

  lemma FrontIsGood(all: seq<Entry>, front: seq<Entry>, back: seq<Entry>, at: Mark, limit: nat)
    requires Increasing(all) && AllAfter(all, at) && front != [] && all == front + back
    requires |front| < limit ==> back == []
    ensures GoodPage(all, front, at, limit)
  {
    var n := |front|;
    SplitIncreasing(all, n);
    assert all[..n] == front && all[n..] == back && all[n - 1] == front[n - 1];
    assert all[n - 1] in all;
    AllAfterMember(all, at, all[n - 1]);
    assert back == [] ==> front == all;
  }

  lemma TwoParts(all: seq<Entry>, n: nat)
    requires n <= |all|
    ensures all == all[..n] + all[n..]
  {
  }

  lemma TakeIsGood(all: seq<Entry>, at: Mark, limit: nat)
    requires Increasing(all) && AllAfter(all, at) && limit >= 1
    ensures GoodPage(all, Take(all, limit), at, limit)
  {
    if |all| > limit {
      TwoParts(all, limit);
      FrontIsGood(all, all[..limit], all[limit..], at, limit);
    } else if all != [] {
      assert all == all + [];
      FrontIsGood(all, all, [], at, limit);
    }
  }

  lemma PageIsGood(feed: seq<Entry>, at: Mark, limit: nat)
    requires Increasing(feed) && 1 <= limit <= MAX_LIMIT
    ensures GoodPage(AfterMark(feed, at), PageAt(feed, at, limit), at, limit)
    ensures AllNamed(feed) ==> AllNamed(PageAt(feed, at, limit))
  {
    AfterMarkIncreasing(feed, at);
    TakeIsGood(AfterMark(feed, at), at, limit);
  }

  lemma {:induction false} JoinIncreasing(a: seq<Entry>, b: seq<Entry>, last: Mark)
    requires Increasing(a) && Increasing(b) && a != [] && last == MarkOf(a[|a| - 1]) && AllAfter(b, last)
    ensures Increasing(a + b)
    ensures forall m :: AllAfter(a, m) ==> AllAfter(a + b, m)
  {
    assert (a + b)[1..] == a[1..] + b;
    if |a| == 1 {
      assert a[1..] + b == b;
      forall m | AllAfter(a, m) ensures AllAfter(b, m) {
        AllAfterTransitive(b, m, last);
      }
    } else {
      JoinIncreasing(a[1..], b, last);
    }
  }

  lemma {:induction false} OrderedFrom(feeds: seq<seq<Entry>>, at: Mark, limit: nat)
    requires GoodFeeds(feeds) && 1 <= limit <= MAX_LIMIT
    ensures Increasing(CollectedFrom(feeds, at, limit)) && AllAfter(CollectedFrom(feeds, at, limit), at)
    decreases |feeds|
  {
    if feeds != [] {
      var page := PageAt(feeds[0], at, limit);
      PageIsGood(feeds[0], at, limit);
      if page != [] && |page| >= limit {
        var last := MarkOf(page[|page| - 1]);
        OrderedFrom(feeds[1..], last, limit);
        JoinIncreasing(page, CollectedFrom(feeds[1..], last, limit), last);
      }
    }
  }

  /** An entry behind a good page, if not on it, is behind its last position. */
  lemma OnPageOrBehind(all: seq<Entry>, page: seq<Entry>, at: Mark, limit: nat, e: Entry)
    requires GoodPage(all, page, at, limit) && e in all && limit >= 1
    ensures e in page || (page != [] && |page| >= limit && MarkLess(MarkOf(page[|page| - 1]), MarkOf(e)))
  {
    if e !in page {
      AllAfterMember(AfterMark(all, MarkOf(page[|page| - 1])), MarkOf(page[|page| - 1]), e);
    }
  }

  lemma {:induction false} CompleteFrom(feeds: seq<seq<Entry>>, at: Mark, limit: nat, e: Entry)
    requires GoodFeeds(feeds) && 1 <= limit <= MAX_LIMIT && FinishedFrom(feeds, at, limit)
    requires MarkLess(at, MarkOf(e)) && forall i :: 0 <= i < |feeds| ==> e in feeds[i]
    ensures e in CollectedFrom(feeds, at, limit)
    decreases |feeds|
  {
    var page := PageAt(feeds[0], at, limit);
    PageIsGood(feeds[0], at, limit);
    AfterMarkMembers(feeds[0], at, e);
    OnPageOrBehind(AfterMark(feeds[0], at), page, at, limit, e);
    if e !in page {
      CompleteFrom(feeds[1..], MarkOf(page[|page| - 1]), limit, e);
    }
  }

  ghost function Repeat(feed: seq<Entry>, n: nat): seq<seq<Entry>> {
    if n == 0 then [] else [feed] + Repeat(feed, n - 1)
  }

  // ---------------------------------------------------------------- following the cursor

  /** The same for a reader who knows positions only by what encodes and decodes them. */
  ghost function CollectedBy(encode: Entry -> string, decode: string -> Mark, feeds: seq<seq<Entry>>, cursor: string,
                             limit: nat): seq<Entry> {
    if feeds == [] then []
    else
      var page := PageAt(feeds[0], decode(cursor), limit);
      if |page| < limit || page == [] then page
      else page + CollectedBy(encode, decode, feeds[1..], encode(page[|page| - 1]), limit)
  }

  ghost predicate FinishedBy(encode: Entry -> string, decode: string -> Mark, feeds: seq<seq<Entry>>, cursor: string,
                             limit: nat) {
    && feeds != []
    && var page := PageAt(feeds[0], decode(cursor), limit);
       |page| < limit || page == [] || FinishedBy(encode, decode, feeds[1..], encode(page[|page| - 1]), limit)
  }

  /** One request for a feed at rest. */
  lemma OneRequest(encode: Entry -> string, decode: string -> Mark, feed: seq<Entry>, cursor: string, limit: nat,
                   n: nat)
    requires n > 0
    ensures var page := PageAt(feed, decode(cursor), limit);
            var (got, ended) := (CollectedBy(encode, decode, Repeat(feed, n), cursor, limit),
                                 FinishedBy(encode, decode, Repeat(feed, n), cursor, limit));
            if |page| < limit || page == [] then got == page && ended
            else
              var next := encode(page[|page| - 1]);
              && got == page + CollectedBy(encode, decode, Repeat(feed, n - 1), next, limit)
              && (ended <==> FinishedBy(encode, decode, Repeat(feed, n - 1), next, limit))
  {
    assert Repeat(feed, n)[1..] == Repeat(feed, n - 1);
  }

  /** What a reader collects who follows `next_cursor` until there is none. */
  ghost function Collected(feeds: seq<seq<Entry>>, cursor: string, limit: nat): seq<Entry> {
    CollectedBy(EncodeCursor, DecodeCursor, feeds, cursor, limit)
  }

  /** The reader got to an answer without a next cursor. */
  ghost predicate Finished(feeds: seq<seq<Entry>>, cursor: string, limit: nat) {
    FinishedBy(EncodeCursor, DecodeCursor, feeds, cursor, limit)
  }

  /** Cursors that round-trip carry positions faithfully from page to page. */
  lemma {:induction false} FaithfulCursors(encode: Entry -> string, decode: string -> Mark, feeds: seq<seq<Entry>>,
                                           cursor: string, limit: nat)
    requires GoodFeeds(feeds) && 1 <= limit <= MAX_LIMIT
    requires forall e: Entry :: e.sequenceId != "" ==> decode(encode(e)) == MarkOf(e)
    ensures CollectedBy(encode, decode, feeds, cursor, limit) == CollectedFrom(feeds, decode(cursor), limit)
    ensures FinishedBy(encode, decode, feeds, cursor, limit) <==> FinishedFrom(feeds, decode(cursor), limit)
    decreases |feeds|
  {
    if feeds != [] {
      var page := PageAt(feeds[0], decode(cursor), limit);
      PageIsGood(feeds[0], decode(cursor), limit);
      if page != [] && |page| >= limit {
        FaithfulCursors(encode, decode, feeds[1..], encode(page[|page| - 1]), limit);
      }
    }
  }

  lemma CursorsArePositions(feeds: seq<seq<Entry>>, cursor: string, at: Mark, limit: nat)
    requires GoodFeeds(feeds) && 1 <= limit <= MAX_LIMIT && at == DecodeCursor(cursor)
    ensures Collected(feeds, cursor, limit) == CollectedFrom(feeds, at, limit)
    ensures Finished(feeds, cursor, limit) <==> FinishedFrom(feeds, at, limit)
  {
    forall e: Entry | e.sequenceId != "" ensures DecodeCursor(EncodeCursor(e)) == MarkOf(e) {
      CursorRoundTrip(e);
    }
    FaithfulCursors(EncodeCursor, DecodeCursor, feeds, cursor, limit);
  }

  /** However the feed changes between requests, a reader never meets an entry twice and meets all in
      cursor order. */
  lemma NothingTwice(feeds: seq<seq<Entry>>, cursor: string, limit: nat)
    requires GoodFeeds(feeds) && 1 <= limit <= MAX_LIMIT
    ensures Increasing(Collected(feeds, cursor, limit)) &&
            AllAfter(Collected(feeds, cursor, limit), DecodeCursor(cursor))
  {
    CursorsArePositions(feeds, cursor, DecodeCursor(cursor), limit);
    OrderedFrom(feeds, DecodeCursor(cursor), limit);
  }

  /** However the feed changes between requests, an entry behind the cursor that is there at every
      request is met by a reader who gets to the end. */
  lemma NothingSkipped(feeds: seq<seq<Entry>>, cursor: string, limit: nat, e: Entry)
    requires GoodFeeds(feeds) && 1 <= limit <= MAX_LIMIT && Finished(feeds, cursor, limit)
    requires MarkLess(DecodeCursor(cursor), MarkOf(e)) && forall i :: 0 <= i < |feeds| ==> e in feeds[i]
    ensures e in Collected(feeds, cursor, limit)
  {
    CursorsArePositions(feeds, cursor, DecodeCursor(cursor), limit);
    CompleteFrom(feeds, DecodeCursor(cursor), limit, e);
  }

  lemma {:induction false} AfterMarkShorter(s: seq<Entry>, m: Mark)
    ensures |AfterMark(s, m)| <= |s|
  {
    if s != [] { AfterMarkShorter(s[1..], m); }
  }

  // ---------------------------------------------------------------- entries without an id

  ghost function Copies(page: seq<Entry>, n: nat): seq<Entry> {
    if n == 0 then [] else page + Copies(page, n - 1)
  }

  /** One of the next n pages is full and ends in an entry without an id. */
  ghost predicate MeetsNameless(encode: Entry -> string, decode: string -> Mark, feed: seq<Entry>, cursor: string,
                                limit: nat, n: nat)
    decreases n
  {
    && n > 0
    && var page := PageAt(feed, decode(cursor), limit);
       && |page| >= limit && page != []
       && (page[|page| - 1].sequenceId == "" ||
           MeetsNameless(encode, decode, feed, encode(page[|page| - 1]), limit, n - 1))
  }

  lemma FinishedBehind(encode: Entry -> string, decode: string -> Mark, feed: seq<Entry>, cursor: string, limit: nat,
                       n: nat)
    requires n > 0 && PageAt(feed, decode(cursor), limit) != [] && |PageAt(feed, decode(cursor), limit)| >= limit
    ensures var page := PageAt(feed, decode(cursor), limit);
            FinishedBy(encode, decode, Repeat(feed, n), cursor, limit) ==>
            FinishedBy(encode, decode, Repeat(feed, n - 1), encode(page[|page| - 1]), limit)
  {
    assert Repeat(feed, n)[1..] == Repeat(feed, n - 1);
  }

  /** Such a page hands out the empty cursor, so the reader is sent round for ever. */
  lemma {:induction false} SentRound(encode: Entry -> string, decode: string -> Mark, feed: seq<Entry>, limit: nat,
                                     k: nat, cursor: string, j: nat, n: nat)
    requires forall e: Entry :: e.sequenceId == "" ==> encode(e) == ""
    requires MeetsNameless(encode, decode, feed, "", limit, k) && MeetsNameless(encode, decode, feed, cursor, limit, j)
    ensures !FinishedBy(encode, decode, Repeat(feed, n), cursor, limit)
    decreases n
  {
    if n > 0 {
      var page := PageAt(feed, decode(cursor), limit);
      FinishedBehind(encode, decode, feed, cursor, limit, n);
      if page[|page| - 1].sequenceId == "" {
        SentRound(encode, decode, feed, limit, k, "", k, n - 1);
      } else {
        SentRound(encode, decode, feed, limit, k, encode(page[|page| - 1]), j - 1, n - 1);
      }
    }
  }

  lemma {:induction false} LessBehind(s: seq<Entry>, low: Mark, high: Mark)
    requires MarkLess(low, high)
    ensures |AfterMark(s, high)| <= |AfterMark(s, low)|
    ensures (exists e :: e in s && MarkOf(e) == high) ==> |AfterMark(s, high)| < |AfterMark(s, low)|
  {
    if s != [] {
      MarkOrder(low, high, MarkOf(s[0]));
      MarkOrder(high, high, high);
      LessBehind(s[1..], low, high);
      assert forall e :: e in s <==> e == s[0] || e in s[1..];
    }
  }

  /** A page lies behind its position, and behind its last entry there is less left. */
  lemma LastGoesOn(feed: seq<Entry>, at: Mark, limit: nat)
    requires PageAt(feed, at, limit) != []
    ensures var page := PageAt(feed, at, limit);
            && (forall e :: e in page ==> e in feed && MarkLess(at, MarkOf(e)))
            && |AfterMark(feed, MarkOf(page[|page| - 1]))| < |AfterMark(feed, at)|
  {
    var page := PageAt(feed, at, limit);
    forall e | e in page ensures e in feed && MarkLess(at, MarkOf(e)) {
      assert e in AfterMark(feed, at);
      AfterMarkMembers(feed, at, e);
    }
    assert page[|page| - 1] in page;
    LessBehind(feed, at, MarkOf(page[|page| - 1]));
  }

  /** Behind full pages that end in named entries the reader gets on, and so to the end. */
  lemma {:induction false} GetsToTheEnd(encode: Entry -> string, decode: string -> Mark, feed: seq<Entry>,
                                        cursor: string, limit: nat, n: nat)
    requires forall e: Entry :: e.sequenceId != "" ==> decode(encode(e)) == MarkOf(e)
    requires n > |AfterMark(feed, decode(cursor))|
    requires !MeetsNameless(encode, decode, feed, cursor, limit, n)
    ensures FinishedBy(encode, decode, Repeat(feed, n), cursor, limit)
    decreases n
  {
    var page := PageAt(feed, decode(cursor), limit);
    assert Repeat(feed, n)[1..] == Repeat(feed, n - 1);
    if page != [] && |page| >= limit {
      LastGoesOn(feed, decode(cursor), limit);
      GetsToTheEnd(encode, decode, feed, encode(page[|page| - 1]), limit, n - 1);
    }
  }

  lemma CursorsRoundTrip()
    ensures forall e: Entry :: e.sequenceId != "" ==> DecodeCursor(EncodeCursor(e)) == MarkOf(e)
  {
    forall e: Entry | e.sequenceId != "" ensures DecodeCursor(EncodeCursor(e)) == MarkOf(e) {
      CursorRoundTrip(e);
    }
  }

  /** A reader of any feed at rest gets to the end if and only if no full page on the way ends in an entry
      without an id. */
  lemma ReaderEndsExactlyWhen(feed: seq<Entry>, limit: nat, n: nat)
    requires n > |feed|
    ensures Finished(Repeat(feed, n), "", limit) <==> !MeetsNameless(EncodeCursor, DecodeCursor, feed, "", limit, n)
  {
    if MeetsNameless(EncodeCursor, DecodeCursor, feed, "", limit, n) {
      SentRound(EncodeCursor, DecodeCursor, feed, limit, n, "", n, n);
    } else {
      CursorsRoundTrip();
      AfterMarkShorter(feed, DecodeCursor(""));
      GetsToTheEnd(EncodeCursor, DecodeCursor, feed, "", limit, n);
    }
  }

  lemma {:induction false} SamePageAgain(encode: Entry -> string, decode: string -> Mark, feed: seq<Entry>, limit: nat,
                                         n: nat)
    requires var page := PageAt(feed, decode(""), limit);
             page != [] && |page| >= limit && encode(page[|page| - 1]) == ""
    ensures CollectedBy(encode, decode, Repeat(feed, n), "", limit) == Copies(PageAt(feed, decode(""), limit), n)
    decreases n
  {
    if n > 0 {
      OneRequest(encode, decode, feed, "", limit, n);
      SamePageAgain(encode, decode, feed, limit, n - 1);
    }
  }

  /** When a first full page ends in an entry without an id, the reader is handed that page with every
      request and never gets to the end. */
  lemma MissingIdStartsOver(feed: seq<Entry>, limit: nat, n: nat)
    requires 1 <= limit <= MAX_LIMIT
    requires var page := Page(feed, "", limit); |page| == limit && page[limit - 1].sequenceId == ""
    ensures Collected(Repeat(feed, n), "", limit) == Copies(Page(feed, "", limit), n)
    ensures !Finished(Repeat(feed, n), "", limit)
  {
    SamePageAgain(EncodeCursor, DecodeCursor, feed, limit, n);
    SentRound(EncodeCursor, DecodeCursor, feed, limit, 1, "", 1, n);
  }

  // ---------------------------------------------------------------- what is never delivered

  lemma {:induction false} CollectedIsBehind(encode: Entry -> string, decode: string -> Mark, feeds: seq<seq<Entry>>,
                                             cursor: string, limit: nat, e: Entry)
    requires forall x: Entry :: if x.sequenceId != "" then decode(encode(x)) == MarkOf(x) else encode(x) == ""
    requires decode("") == Beginning && (decode(cursor) == Beginning || MarkLess(Beginning, decode(cursor)))
    requires e in CollectedBy(encode, decode, feeds, cursor, limit)
    ensures MarkLess(Beginning, MarkOf(e))
    decreases |feeds|
  {
    var page := PageAt(feeds[0], decode(cursor), limit);
    if page != [] {
      LastGoesOn(feeds[0], decode(cursor), limit);
      assert page[|page| - 1] in page;
      MarkOrder(Beginning, decode(cursor), MarkOf(page[|page| - 1]));
      if e in page {
        MarkOrder(Beginning, decode(cursor), MarkOf(e));
      } else {
        CollectedIsBehind(encode, decode, feeds[1..], encode(page[|page| - 1]), limit, e);
      }
    }
  }

  /** An entry at or before the starting position, that is one with a negative time or with time 0 and no id,
      is delivered to no reader, whatever the feeds. */
  lemma EarlyEntryIsLost(feeds: seq<seq<Entry>>, limit: nat, e: Entry)
    requires e.ms < 0 || (e.ms == 0 && e.sequenceId == "")
    ensures e !in Collected(feeds, "", limit)
  {
    if e in Collected(feeds, "", limit) {
      CursorsRoundTrip();
      CollectedIsBehind(EncodeCursor, DecodeCursor, feeds, "", limit, e);
    }
  }

  /** An event with neither a time nor a usable id: the reader gets to the end and has not met it. */
  lemma UndatedUnnamedExample(e: Entry, limit: nat)
    requires e.ms == 0 && e.sequenceId == "" && limit >= 1
    ensures Finished(Repeat([e], 2), "", limit) && Collected(Repeat([e], 2), "", limit) == []
  {
    assert [e][1..] == [];
    assert AfterMark([e], Beginning) == [];
    assert PageAt([e], DecodeCursor(""), limit) == [];
  }

  // ---------------------------------------------------------------- what is delivered

  /** The feed falls apart at c for the cursor of the entry before: that entry has an id, everything from c on
      lies strictly behind it and nothing before does. */
  ghost predicate CleanCut(feed: seq<Entry>, c: nat)
    requires 0 < c <= |feed|
  {
    && feed[c - 1].sequenceId != ""
    && (forall i :: 0 <= i < c ==> !MarkLess(MarkOf(feed[c - 1]), MarkOf(feed[i])))
    && (forall i :: c <= i < |feed| ==> MarkLess(MarkOf(feed[c - 1]), MarkOf(feed[i])))
  }

  /** An entry that would come again behind position c is not the one due there. */
  ghost predicate NoEcho(feed: seq<Entry>) {
    forall i, c :: 0 <= i < c < |feed| && MarkLess(MarkOf(feed[c - 1]), MarkOf(feed[i])) ==> feed[i] != feed[c]
  }

  /** Clean cuts at every page's end from c on. */
  ghost predicate CutsFrom(feed: seq<Entry>, c: nat, limit: nat)
    requires limit >= 1
    decreases |feed| - c
  {
    c + limit > |feed| || (CleanCut(feed, c + limit) && CutsFrom(feed, c + limit, limit))
  }

  lemma {:induction false} NothingBehind(s: seq<Entry>, m: Mark)
    requires forall i :: 0 <= i < |s| ==> !MarkLess(m, MarkOf(s[i]))
    ensures AfterMark(s, m) == []
  {
    if s != [] { NothingBehind(s[1..], m); }
  }

  lemma {:induction false} AllBehind(s: seq<Entry>, m: Mark)
    requires forall i :: 0 <= i < |s| ==> MarkLess(m, MarkOf(s[i]))
    ensures AfterMark(s, m) == s
  {
    if s != [] { AllBehind(s[1..], m); }
  }

  lemma {:induction false} AfterMarkAppend(a: seq<Entry>, b: seq<Entry>, m: Mark)
    ensures AfterMark(a + b, m) == AfterMark(a, m) + AfterMark(b, m)
  {
    if a == [] {
      assert a + b == b;
    } else {
      assert (a + b)[1..] == a[1..] + b;
      AfterMarkAppend(a[1..], b, m);
    }
  }

  lemma CutGoesOn(feed: seq<Entry>, c: nat)
    requires 0 < c <= |feed| && CleanCut(feed, c)
    ensures AfterMark(feed, MarkOf(feed[c - 1])) == feed[c..]
  {
    var m := MarkOf(feed[c - 1]);
    TwoParts(feed, c);
    AfterMarkAppend(feed[..c], feed[c..], m);
    NothingBehind(feed[..c], m);
    AllBehind(feed[c..], m);
  }

  lemma CutPage(feed: seq<Entry>, at: Mark, c: nat, limit: nat)
    requires 1 <= limit <= MAX_LIMIT && c + limit <= |feed| && AfterMark(feed, at) == feed[c..]
    requires CleanCut(feed, c + limit)
    ensures PageAt(feed, at, limit) == feed[c..c + limit] && feed[c..] == feed[c..c + limit] + feed[c + limit..]
    ensures AfterMark(feed, MarkOf(feed[c + limit - 1])) == feed[c + limit..]
  {
    CutGoesOn(feed, c + limit);
  }

  /** With clean cuts the reader takes the feed page by page. */
  lemma {:induction false} ReadsOn(encode: Entry -> string, decode: string -> Mark, feed: seq<Entry>, c: nat,
                                   cursor: string, limit: nat, n: nat)
    requires forall e: Entry :: e.sequenceId != "" ==> decode(encode(e)) == MarkOf(e)
    requires 1 <= limit <= MAX_LIMIT && c <= |feed| && n > |feed| - c
    requires AfterMark(feed, decode(cursor)) == feed[c..] && CutsFrom(feed, c, limit)
    ensures FinishedBy(encode, decode, Repeat(feed, n), cursor, limit)
    ensures CollectedBy(encode, decode, Repeat(feed, n), cursor, limit) == feed[c..]
    decreases n
  {
    hide CollectedBy, FinishedBy;
    OneRequest(encode, decode, feed, cursor, limit, n);
    if c + limit <= |feed| {
      CutPage(feed, decode(cursor), c, limit);
      ReadsOn(encode, decode, feed, c + limit, encode(feed[c + limit - 1]), limit, n - 1);
    }
  }

  /** More requests change nothing once the end is reached. */
  lemma {:induction false} EndIsFinal(encode: Entry -> string, decode: string -> Mark, feed: seq<Entry>, cursor: string,
                                      limit: nat, n: nat, more: nat)
    requires FinishedBy(encode, decode, Repeat(feed, n), cursor, limit) && n <= more
    ensures CollectedBy(encode, decode, Repeat(feed, n), cursor, limit) ==
            CollectedBy(encode, decode, Repeat(feed, more), cursor, limit)
    decreases n
  {
    assert Repeat(feed, n)[1..] == Repeat(feed, n - 1) && Repeat(feed, more)[1..] == Repeat(feed, more - 1);
    var page := PageAt(feed, decode(cursor), limit);
    if |page| >= limit && page != [] {
      EndIsFinal(encode, decode, feed, encode(page[|page| - 1]), limit, n - 1, more - 1);
    }
  }

  /** What the next page starts with, if anything lies behind the position. */
  lemma {:induction false} FirstBehind(s: seq<Entry>, m: Mark, i: nat) returns (j: nat)
    requires i < |s| && MarkLess(m, MarkOf(s[i]))
    ensures j <= i && MarkLess(m, MarkOf(s[j])) && AfterMark(s, m) != [] && AfterMark(s, m)[0] == s[j]
    decreases i
  {
    if MarkLess(m, MarkOf(s[0])) {
      j := 0;
    } else {
      j := FirstBehind(s[1..], m, i - 1);
      j := j + 1;
    }
  }

  lemma FirstCollected(encode: Entry -> string, decode: string -> Mark, feed: seq<Entry>, cursor: string, limit: nat,
                       n: nat, got: seq<Entry>)
    requires limit >= 1 && n > 0 && AfterMark(feed, decode(cursor)) != []
    requires CollectedBy(encode, decode, Repeat(feed, n), cursor, limit) == got
    ensures got != [] && got[0] == AfterMark(feed, decode(cursor))[0]
  {
  }

  /** Nothing before the cut comes again, if the reader still gets the feed. */
  lemma NothingComesAgain(encode: Entry -> string, decode: string -> Mark, feed: seq<Entry>, c: nat, cursor: string,
                          limit: nat, n: nat, i: nat)
    requires 1 <= limit <= MAX_LIMIT && NoEcho(feed) && i < c <= |feed| && n > 0
    requires decode(cursor) == MarkOf(feed[c - 1])
    requires CollectedBy(encode, decode, Repeat(feed, n), cursor, limit) == feed[c..]
    ensures !MarkLess(MarkOf(feed[c - 1]), MarkOf(feed[i]))
  {
    if MarkLess(MarkOf(feed[c - 1]), MarkOf(feed[i])) {
      var j := FirstBehind(feed, decode(cursor), i);
      FirstCollected(encode, decode, feed, cursor, limit, n, feed[c..]);
      assert false;
    }
  }

  lemma NothingBeforeComesAgain(encode: Entry -> string, decode: string -> Mark, feed: seq<Entry>, c: nat,
                                cursor: string, limit: nat, n: nat)
    requires 1 <= limit <= MAX_LIMIT && NoEcho(feed) && 0 < c <= |feed|
    requires decode(cursor) == MarkOf(feed[c - 1])
    requires FinishedBy(encode, decode, Repeat(feed, n), cursor, limit)
    requires CollectedBy(encode, decode, Repeat(feed, n), cursor, limit) == feed[c..]
    ensures forall i :: 0 <= i < c ==> !MarkLess(MarkOf(feed[c - 1]), MarkOf(feed[i]))
  {
    forall i | 0 <= i < c ensures !MarkLess(MarkOf(feed[c - 1]), MarkOf(feed[i])) {
      NothingComesAgain(encode, decode, feed, c, cursor, limit, n, i);
    }
  }

  /** The rest of the feed is not gathered from its beginning, so the last page ended in an entry with an id. */
  lemma EndsNamed(encode: Entry -> string, decode: string -> Mark, feed: seq<Entry>, c: nat, limit: nat, n: nat,
                  all: nat)
    requires forall e: Entry :: if e.sequenceId != "" then decode(encode(e)) == MarkOf(e) else encode(e) == ""
    requires 0 < c <= |feed| && n <= all
    requires CollectedBy(encode, decode, Repeat(feed, all), "", limit) == feed
    requires FinishedBy(encode, decode, Repeat(feed, n), encode(feed[c - 1]), limit)
    requires CollectedBy(encode, decode, Repeat(feed, n), encode(feed[c - 1]), limit) == feed[c..]
    ensures feed[c - 1].sequenceId != ""
  {
    if feed[c - 1].sequenceId == "" {
      EndIsFinal(encode, decode, feed, "", limit, n, all);
      assert false;
    }
  }

  lemma SplitHere(page: seq<Entry>, rest: seq<Entry>, feed: seq<Entry>, c: nat)
    requires c <= |feed| && page + rest == feed[c..]
    ensures c + |page| <= |feed| && page == feed[c..c + |page|] && rest == feed[c + |page|..]
  {
    var n := |page|;
    assert |feed| - c == n + |rest|;
    assert feed[c..][..n] == feed[c..c + n] && feed[c..][n..] == feed[c + n..];
    assert (page + rest)[..n] == page && (page + rest)[n..] == rest;
  }

  /** One full page of a reader who gets to the end. */
  lemma FullPage(encode: Entry -> string, decode: string -> Mark, feed: seq<Entry>, c: nat, cursor: string, limit: nat,
                 n: nat)
    requires 1 <= limit <= MAX_LIMIT && c + limit <= |feed|
    requires FinishedBy(encode, decode, Repeat(feed, n), cursor, limit)
    requires CollectedBy(encode, decode, Repeat(feed, n), cursor, limit) == feed[c..]
    ensures n > 0 && PageAt(feed, decode(cursor), limit) == feed[c..c + limit]
    ensures FinishedBy(encode, decode, Repeat(feed, n - 1), encode(feed[c + limit - 1]), limit)
    ensures CollectedBy(encode, decode, Repeat(feed, n - 1), encode(feed[c + limit - 1]), limit) == feed[c + limit..]
  {
    OneRequest(encode, decode, feed, cursor, limit, n);
    var page := PageAt(feed, decode(cursor), limit);
    assert |page| == limit;
    SplitHere(page, CollectedBy(encode, decode, Repeat(feed, n - 1), encode(page[limit - 1]), limit), feed, c);
  }

  /** A last page that is not full holds what is left, all of it behind the position. */
  lemma LastPage(encode: Entry -> string, decode: string -> Mark, feed: seq<Entry>, c: nat, cursor: string, limit: nat,
                 n: nat)
    requires 1 <= limit <= MAX_LIMIT && c <= |feed| < c + limit &&
             FinishedBy(encode, decode, Repeat(feed, n), cursor, limit)
    requires CollectedBy(encode, decode, Repeat(feed, n), cursor, limit) == feed[c..]
    ensures forall i :: c <= i < |feed| ==> MarkLess(decode(cursor), MarkOf(feed[i]))
  {
    var page := PageAt(feed, decode(cursor), limit);
    if page != [] { LastGoesOn(feed, decode(cursor), limit); }
    forall i | c <= i < |feed| ensures MarkLess(decode(cursor), MarkOf(feed[i])) {
      assert feed[c..][i - c] == feed[i] && feed[i] in page;
    }
  }

  /** A reader who gets exactly the feed from c on met a clean cut at every page's end. */
  lemma {:induction false} DeliveredMeans(encode: Entry -> string, decode: string -> Mark, feed: seq<Entry>, c: nat,
                                          cursor: string, limit: nat, n: nat, all: nat)
    requires forall e: Entry :: if e.sequenceId != "" then decode(encode(e)) == MarkOf(e) else encode(e) == ""
    requires 1 <= limit <= MAX_LIMIT && NoEcho(feed) && c <= |feed| && n <= all
    requires CollectedBy(encode, decode, Repeat(feed, all), "", limit) == feed
    requires FinishedBy(encode, decode, Repeat(feed, n), cursor, limit)
    requires CollectedBy(encode, decode, Repeat(feed, n), cursor, limit) == feed[c..]
    ensures CutsFrom(feed, c, limit)
    ensures forall i :: c <= i < |feed| ==> MarkLess(decode(cursor), MarkOf(feed[i]))
    decreases n
  {
    hide CollectedBy, FinishedBy, PageAt, MarkLess, NoEcho, Repeat;
    if c + limit > |feed| {
      LastPage(encode, decode, feed, c, cursor, limit, n);
    } else {
      var d, last := c + limit, feed[c + limit - 1];
      FullPage(encode, decode, feed, c, cursor, limit, n);
      EndsNamed(encode, decode, feed, d, limit, n - 1, all);
      DeliveredMeans(encode, decode, feed, d, encode(last), limit, n - 1, all);
      NothingBeforeComesAgain(encode, decode, feed, d, encode(last), limit, n - 1);
      BehindPageToo(feed, decode(cursor), c, limit);
    }
  }

  lemma BehindPageToo(feed: seq<Entry>, at: Mark, c: nat, limit: nat)
    requires 1 <= limit && c + limit <= |feed| && PageAt(feed, at, limit) == feed[c..c + limit]
    requires forall i :: c + limit <= i < |feed| ==> MarkLess(MarkOf(feed[c + limit - 1]), MarkOf(feed[i]))
    ensures forall i :: c <= i < |feed| ==> MarkLess(at, MarkOf(feed[i]))
  {
    var page := feed[c..c + limit];
    LastGoesOn(feed, at, limit);
    assert forall i :: c <= i < c + limit ==> page[i - c] == feed[i] && feed[i] in page;
    forall i | c + limit <= i < |feed| ensures MarkLess(at, MarkOf(feed[i])) {
      assert MarkLess(at, MarkOf(feed[c + limit - 1]));
      MarkOrder(at, MarkOf(feed[c + limit - 1]), MarkOf(feed[i]));
    }
  }

  lemma TimesAtLeast(k: int, limit: nat)
    ensures k >= 1 ==> k * limit >= limit
    ensures k <= -1 ==> k * limit + limit <= 0
  {
  }

  lemma RemainderOf(p: nat, r: nat, limit: nat)
    requires r < limit
    ensures (p * limit + r) % limit == r
  {
    var v := p * limit + r;
    var q := v / limit;
    assert v == q * limit + v % limit;
    assert (q - p) * limit == r - v % limit;
    TimesAtLeast(q - p, limit);
  }

  lemma NoMultipleInside(c: nat, d: nat, limit: nat)
    requires limit >= 1 && c % limit == 0 && c < d < c + limit
    ensures d % limit != 0
  {
    assert c == c / limit * limit;
    RemainderOf(c / limit, d - c, limit);
  }

  lemma NextMultiple(c: nat, limit: nat)
    requires limit >= 1 && c % limit == 0
    ensures (c + limit) % limit == 0
  {
    assert c == c / limit * limit;
    assert (c / limit + 1) * limit == c / limit * limit + limit;
    RemainderOf(c / limit + 1, 0, limit);
  }

  /** The page's ends are the multiples of the page size. */
  ghost predicate CutsAtMultiples(feed: seq<Entry>, c: nat, limit: nat)
    requires limit >= 1
  {
    forall d :: c < d <= |feed| && d % limit == 0 ==> CleanCut(feed, d)
  }

  lemma {:induction false} CutsAreMultiples(feed: seq<Entry>, c: nat, limit: nat)
    requires limit >= 1 && c % limit == 0
    ensures CutsFrom(feed, c, limit) <==> CutsAtMultiples(feed, c, limit)
    decreases |feed| - c
  {
    forall d | c < d < c + limit ensures d % limit != 0 {
      NoMultipleInside(c, d, limit);
    }
    NextMultiple(c, limit);
    if c + limit <= |feed| { CutsAreMultiples(feed, c + limit, limit); }
  }

  /** The reader of a feed at rest gets to the end with exactly the feed. */
  ghost predicate Delivered(feed: seq<Entry>, limit: nat, n: nat) {
    Finished(Repeat(feed, n), "", limit) && Collected(Repeat(feed, n), "", limit) == feed
  }

  /** Behind the position a reader without a cursor starts from. */
  predicate AfterBeginning(e: Entry) {
    e.ms > 0 || (e.ms == 0 && e.sequenceId != "")
  }

  lemma StartIsBeginning(e: Entry)
    ensures MarkLess(DecodeCursor(""), MarkOf(e)) <==> AfterBeginning(e)
  {
  }

  lemma CursorsAreFaithful()
    ensures forall e: Entry ::
              if e.sequenceId != "" then DecodeCursor(EncodeCursor(e)) == MarkOf(e) else EncodeCursor(e) == ""
  {
    CursorsRoundTrip();
  }

  lemma CutsDeliver(feed: seq<Entry>, limit: nat, n: nat)
    requires 1 <= limit <= MAX_LIMIT && n > |feed| && CutsFrom(feed, 0, limit)
    requires forall i :: 0 <= i < |feed| ==> AfterBeginning(feed[i])
    ensures Delivered(feed, limit, n)
  {
    CursorsRoundTrip();
    forall i | 0 <= i < |feed| ensures MarkLess(DecodeCursor(""), MarkOf(feed[i])) {
      StartIsBeginning(feed[i]);
    }
    AllBehind(feed, DecodeCursor(""));
    assert feed[0..] == feed;
    ReadsOn(EncodeCursor, DecodeCursor, feed, 0, "", limit, n);
  }

  /** A reader without a cursor is delivered the feed, every entry once and in order, if and only if every
      entry lies behind the starting position and the feed falls apart cleanly at every page's end. */
  lemma DeliveredExactlyWhen(feed: seq<Entry>, limit: nat, n: nat)
    requires NoEcho(feed) && 1 <= limit <= MAX_LIMIT && n > |feed|
    ensures Delivered(feed, limit, n) <==>
              (forall i :: 0 <= i < |feed| ==> AfterBeginning(feed[i])) && CutsAtMultiples(feed, 0, limit)
  {
    CutsAreMultiples(feed, 0, limit);
    if Delivered(feed, limit, n) {
      CursorsAreFaithful();
      assert feed[0..] == feed;
      DeliveredMeans(EncodeCursor, DecodeCursor, feed, 0, "", limit, n, n);
      forall i | 0 <= i < |feed| ensures AfterBeginning(feed[i]) {
        StartIsBeginning(feed[i]);
      }
    } else if (forall i :: 0 <= i < |feed| ==> AfterBeginning(feed[i])) && CutsAtMultiples(feed, 0, limit) {
      CutsDeliver(feed, limit, n);
    }
  }

  lemma {:induction false} IncreasingAt(s: seq<Entry>, i: nat, j: nat)
    requires Increasing(s) && i < j < |s|
    ensures MarkLess(MarkOf(s[i]), MarkOf(s[j]))
  {
    if i == 0 {
      assert s[j] == s[1..][j - 1] && s[j] in s[1..];
      AllAfterMember(s[1..], MarkOf(s[0]), s[j]);
    } else {
      IncreasingAt(s[1..], i - 1, j - 1);
    }
  }

  /** A strictly increasing feed falls apart cleanly behind every entry with an id. */
  lemma IncreasingCuts(feed: seq<Entry>)
    requires Increasing(feed)
    ensures NoEcho(feed) && forall c :: 0 < c <= |feed| ==> (CleanCut(feed, c) <==> feed[c - 1].sequenceId != "")
  {
    forall i, j | 0 <= i < j < |feed|
      ensures MarkLess(MarkOf(feed[i]), MarkOf(feed[j])) && !MarkLess(MarkOf(feed[j]), MarkOf(feed[i]))
    {
      IncreasingAt(feed, i, j);
      MarkOrder(MarkOf(feed[i]), MarkOf(feed[j]), MarkOf(feed[i]));
    }
    forall i | 0 <= i < |feed| ensures !MarkLess(MarkOf(feed[i]), MarkOf(feed[i])) {
      MarkOrder(MarkOf(feed[i]), MarkOf(feed[i]), MarkOf(feed[i]));
    }
  }

  lemma {:induction false} NamedMeetNoNameless(encode: Entry -> string, decode: string -> Mark, feed: seq<Entry>,
                                               cursor: string, limit: nat, n: nat)
    requires AllNamed(feed)
    ensures !MeetsNameless(encode, decode, feed, cursor, limit, n)
    decreases n
  {
    var page := PageAt(feed, decode(cursor), limit);
    if n > 0 && page != [] {
      LastGoesOn(feed, decode(cursor), limit);
      assert page[|page| - 1] in page;
      NamedMeetNoNameless(encode, decode, feed, encode(page[|page| - 1]), limit, n - 1);
    }
  }

  /** Every page's last entry from position c on has an id. */
  ghost predicate NamedAtMultiples(feed: seq<Entry>, c: nat, limit: nat)
    requires limit >= 1
  {
    forall d :: c < d <= |feed| && d % limit == 0 ==> feed[d - 1].sequenceId != ""
  }

  lemma IncreasingMultiples(feed: seq<Entry>, limit: nat)
    requires Increasing(feed) && limit >= 1
    ensures CutsAtMultiples(feed, 0, limit) <==> NamedAtMultiples(feed, 0, limit)
  {
    IncreasingCuts(feed);
    if CutsAtMultiples(feed, 0, limit) {
      forall c | 0 < c <= |feed| && c % limit == 0 ensures feed[c - 1].sequenceId != "" {
        assert CleanCut(feed, c);
      }
    }
  }

  lemma NamedStep(s: seq<Entry>, c: nat, limit: nat)
    requires limit >= 1 && c % limit == 0
    ensures (c + limit) % limit == 0
    ensures NamedAtMultiples(s, c, limit) <==>
              c + limit > |s| || (s[c + limit - 1].sequenceId != "" && NamedAtMultiples(s, c + limit, limit))
  {
    forall d | c < d < c + limit ensures d % limit != 0 {
      NoMultipleInside(c, d, limit);
    }
    NextMultiple(c, limit);
  }

  lemma {:induction false} AfterMarkTwice(s: seq<Entry>, low: Mark, high: Mark)
    requires MarkLess(low, high)
    ensures AfterMark(AfterMark(s, low), high) == AfterMark(s, high)
  {
    if s != [] {
      MarkOrder(low, high, MarkOf(s[0]));
      AfterMarkTwice(s[1..], low, high);
    }
  }

  /** Behind a page of a strictly increasing feed lies the rest of what lay behind the position. */
  lemma RestBehind(feed: seq<Entry>, at: Mark, d: nat)
    requires Increasing(feed) && 0 < d <= |AfterMark(feed, at)|
    ensures AfterMark(feed, MarkOf(AfterMark(feed, at)[d - 1])) == AfterMark(feed, at)[d..]
  {
    var rest := AfterMark(feed, at);
    AfterMarkIncreasing(feed, at);
    SplitIncreasing(rest, d);
    assert rest[d - 1] in rest;
    AllAfterMember(rest, at, rest[d - 1]);
    AfterMarkTwice(feed, at, MarkOf(rest[d - 1]));
  }

  lemma {:induction false} MeetsNamelessAt(encode: Entry -> string, decode: string -> Mark, feed: seq<Entry>, at: Mark,
                                           c: nat, cursor: string, limit: nat, n: nat)
    requires forall e: Entry :: e.sequenceId != "" ==> decode(encode(e)) == MarkOf(e)
    requires Increasing(feed) && 1 <= limit <= MAX_LIMIT && c % limit == 0
    requires c <= |AfterMark(feed, at)| < n + c && AfterMark(feed, decode(cursor)) == AfterMark(feed, at)[c..]
    ensures MeetsNameless(encode, decode, feed, cursor, limit, n) <==> !NamedAtMultiples(AfterMark(feed, at), c, limit)
    decreases n
  {
    hide AfterMark, Increasing;
    var rest := AfterMark(feed, at);
    NamedStep(rest, c, limit);
    if c + limit <= |rest| && rest[c + limit - 1].sequenceId != "" {
      RestBehind(feed, at, c + limit);
      MeetsNamelessAt(encode, decode, feed, at, c + limit, encode(rest[c + limit - 1]), limit, n - 1);
    }
  }

  /** The reader of a strictly increasing feed gets to the end if and only if no page's last entry lacks an
      id, counting from the starting position. */
  lemma ReaderEndsByPosition(feed: seq<Entry>, limit: nat, n: nat)
    requires Increasing(feed) && 1 <= limit <= MAX_LIMIT && n > |feed|
    ensures Finished(Repeat(feed, n), "", limit) <==> NamedAtMultiples(AfterMark(feed, Beginning), 0, limit)
  {
    CursorsRoundTrip();
    AfterMarkShorter(feed, Beginning);
    assert AfterMark(feed, Beginning)[0..] == AfterMark(feed, Beginning);
    MeetsNamelessAt(EncodeCursor, DecodeCursor, feed, Beginning, 0, "", limit, n);
    ReaderEndsExactlyWhen(feed, limit, n);
  }

  lemma NamedReaderEnds(feed: seq<Entry>, limit: nat, n: nat)
    requires AllNamed(feed) && n > |feed|
    ensures Finished(Repeat(feed, n), "", limit)
  {
    NamedMeetNoNameless(EncodeCursor, DecodeCursor, feed, "", limit, n);
    ReaderEndsExactlyWhen(feed, limit, n);
  }

  /** The pages of a strictly increasing feed join up to exactly the feed if and only if every entry lies
      behind the starting position and no page's last entry lacks an id. When all have ids the reader always
      gets to the end, and then has the feed if and only if no time is negative. */
  lemma PagesAreTheFeed(feed: seq<Entry>, limit: nat, n: nat)
    requires Increasing(feed) && 1 <= limit <= MAX_LIMIT && n > |feed|
    ensures Delivered(feed, limit, n) <==>
              (forall i :: 0 <= i < |feed| ==> AfterBeginning(feed[i])) && NamedAtMultiples(feed, 0, limit)
    ensures AllNamed(feed) ==>
              && Finished(Repeat(feed, n), "", limit)
              && (Collected(Repeat(feed, n), "", limit) == feed <==> forall i :: 0 <= i < |feed| ==> feed[i].ms >= 0)
  {
    hide CollectedBy, FinishedBy, CutsAtMultiples, CleanCut;
    IncreasingCuts(feed);
    IncreasingMultiples(feed, limit);
    DeliveredExactlyWhen(feed, limit, n);
    if AllNamed(feed) {
      NamedReaderEnds(feed, limit, n);
    }
  }

  // ---------------------------------------------------------------- ids as text

  /** Ids compare as text, so a tenth event sorts before a ninth one of the same millisecond. */
  lemma TenBeforeNine()
    ensures MarkLess(Mark(0, "e_" + Decimal(10)), Mark(0, "e_" + Decimal(9)))
  {
    var ten, nine := "e_" + Decimal(10), "e_" + Decimal(9);
    assert Decimal(10) == Decimal(1) + [DigitChar(0)];
    assert ten[2] == '1' && nine[2] == '9';
    assert TextLess(ten[2..], nine[2..]);
    assert ten[1..][1..] == ten[2..] && nine[1..][1..] == nine[2..];
    assert TextLess(ten[1..], nine[1..]);
  }

  // ---------------------------------------------------------------- numbers as text

  ghost function PowerOfTen(n: nat): (p: nat)
    ensures p >= 1
  {
    if n == 0 then 1 else 10 * PowerOfTen(n - 1)
  }

  lemma TimesTen(d: nat, p: nat, n: nat, last: nat)
    ensures (d * p + n) * 10 + last == d * (10 * p) + (n * 10 + last)
  {
  }

  lemma {:induction false} NumberFromHead(s: string)
    requires s != "" && AllDigits(s)
    ensures NumberOf(s) == DigitValue(s[0]) * PowerOfTen(|s| - 1) + NumberOf(s[1..])
    ensures NumberOf(s[1..]) < PowerOfTen(|s| - 1)
    decreases |s|
  {
    var front, last := s[..|s| - 1], s[|s| - 1];
    if |s| == 1 {
      assert s[1..] == "" && front == "";
    } else {
      NumberFromHead(front);
      assert s[1..][..|s| - 2] == front[1..];
      TimesTen(DigitValue(s[0]), PowerOfTen(|s| - 2), NumberOf(front[1..]), DigitValue(last));
    }
  }

  lemma HeadDecides(x: nat, y: nat, p: nat, m: nat, n: nat)
    requires m < p && n < p
    ensures x < y ==> x * p + m < y * p + n
    ensures x == y ==> (x * p + m < y * p + n <==> m < n)
  {
    if x < y { assert (x + 1) * p <= y * p; }
  }

  lemma {:induction false} SameLengthOrder(x: string, y: string)
    requires |x| == |y| && AllDigits(x) && AllDigits(y)
    ensures TextLess(x, y) <==> NumberOf(x) < NumberOf(y)
  {
    if x != "" {
      NumberFromHead(x);
      NumberFromHead(y);
      SameLengthOrder(x[1..], y[1..]);
      HeadDecides(DigitValue(x[0]), DigitValue(y[0]), PowerOfTen(|x| - 1), NumberOf(x[1..]), NumberOf(y[1..]));
      HeadDecides(DigitValue(y[0]), DigitValue(x[0]), PowerOfTen(|x| - 1), NumberOf(y[1..]), NumberOf(x[1..]));
    }
  }

  lemma {:induction false} ShorterOrder(x: string, y: string)
    requires |x| < |y|
    ensures TextLess(x, y) <==> !TextLess(y[..|x|], x)
  {
    if x != "" {
      ShorterOrder(x[1..], y[1..]);
      assert y[..|x|][1..] == y[1..][..|x| - 1];
    }
  }

  lemma {:induction false} LargerIsNoShorter(a: nat, b: nat)
    requires a <= b
    ensures |Decimal(a)| <= |Decimal(b)|
  {
    if a >= 10 { LargerIsNoShorter(a / 10, b / 10); }
  }

  lemma BehindPrefix(x: string, y: string, ms: int)
    ensures MarkLess(Mark(ms, "e_" + x), Mark(ms, "e_" + y)) <==> TextLess(x, y)
  {
    var a, b := "e_" + x, "e_" + y;
    assert a[1..][1..] == x && b[1..][1..] == y;
    assert TextLess(a[1..], b[1..]) <==> TextLess(x, y);
  }

  /** Of two events of one millisecond the one with the lower number comes first if and only if its number is
      at most what the other's shows in as many leading digits. */
  lemma NumberOrderExactlyWhen(a: nat, b: nat, ms: int)
    requires a < b
    ensures |Decimal(a)| <= |Decimal(b)|
    ensures MarkLess(Mark(ms, "e_" + Decimal(a)), Mark(ms, "e_" + Decimal(b))) <==>
            a <= NumberOf(Decimal(b)[..|Decimal(a)|])
  {
    var x, y := Decimal(a), Decimal(b);
    LargerIsNoShorter(a, b);
    BehindPrefix(x, y, ms);
    NumberOfDecimal(a);
    NumberOfDecimal(b);
    if |x| == |y| {
      assert y[..|x|] == y;
      SameLengthOrder(x, y);
    } else {
      ShorterOrder(x, y);
      SameLengthOrder(y[..|x|], x);
    }
  }
}
