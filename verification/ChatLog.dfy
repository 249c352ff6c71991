/** The capped per-session chat log (python/vtt_orchestrator/storage.py): the in-memory store trims
    before it appends, its Postgres twin inserts and then trims. Both are proved to show the same log. */
module ChatLog {
  import opened Text

  const CHAT_MESSAGE_CAP := 10_000

  /** A stored line; `body` stands for author, role, channel and content. */
  datatype Row = Row(session: string, id: int, body: string)

  // ---------------------------------------------------------------- rows of a session

  function RowsOf(rows: seq<Row>, session: string): seq<Row> {
    if rows == [] then []
    else if rows[0].session == session then [rows[0]] + RowsOf(rows[1..], session)
    else RowsOf(rows[1..], session)
  }

  /** Removes a session's rows up to an id. */
  function DropUpTo(rows: seq<Row>, session: string, threshold: int): seq<Row> {
    if rows == [] then []
    else if rows[0].session == session && rows[0].id <= threshold then DropUpTo(rows[1..], session, threshold)
    else [rows[0]] + DropUpTo(rows[1..], session, threshold)
  }

  /** Removes the row of a session with an id. */
  function DropId(rows: seq<Row>, session: string, id: int): seq<Row> {
    if rows == [] then []
    else if rows[0].session == session && rows[0].id == id then DropId(rows[1..], session, id)
    else [rows[0]] + DropId(rows[1..], session, id)
  }

  function MaxId(rows: seq<Row>): int {
    if rows == [] then 0
    else var rest := MaxId(rows[1..]); if |rows| == 1 || rows[0].id > rest then rows[0].id else rest
  }

  function InsertById(row: Row, rows: seq<Row>): seq<Row> {
    if rows == [] || row.id < rows[0].id then [row] + rows else [rows[0]] + InsertById(row, rows[1..])
  }

  /** The stable sort by sequence id. */
  function SortById(rows: seq<Row>): seq<Row> {
    if rows == [] then [] else InsertById(rows[|rows| - 1], SortById(rows[..|rows| - 1]))
  }

  function Bodies(rows: seq<Row>): seq<string> {
    if rows == [] then [] else [rows[0].body] + Bodies(rows[1..])
  }

  ghost predicate ById(rows: seq<Row>) {
    forall i, j :: 0 <= i < j < |rows| ==> rows[i].id <= rows[j].id
  }

  lemma {:induction false} InsertByIdCounts(row: Row, rows: seq<Row>)
    ensures multiset(InsertById(row, rows)) == multiset(rows) + multiset{row}
  {
    if rows != [] && row.id >= rows[0].id {
      InsertByIdCounts(row, rows[1..]);
      assert rows == [rows[0]] + rows[1..];
    }
  }

  lemma {:induction false} InsertByIdBound(row: Row, rows: seq<Row>, bound: int)
    requires row.id >= bound && forall i :: 0 <= i < |rows| ==> rows[i].id >= bound
    ensures forall i :: 0 <= i < |InsertById(row, rows)| ==> InsertById(row, rows)[i].id >= bound
  {
    if rows != [] && row.id >= rows[0].id { InsertByIdBound(row, rows[1..], bound); }
  }

  lemma {:induction false} InsertByIdOrder(row: Row, rows: seq<Row>)
    requires ById(rows)
    ensures ById(InsertById(row, rows))
  {
    if rows != [] && row.id >= rows[0].id {
      InsertByIdOrder(row, rows[1..]);
      InsertByIdBound(row, rows[1..], rows[0].id);
    }
  }

  lemma {:induction false} SortByIdFacts(rows: seq<Row>)
    ensures ById(SortById(rows)) && multiset(SortById(rows)) == multiset(rows)
  {
    if rows != [] {
      SortByIdFacts(rows[..|rows| - 1]);
      InsertByIdCounts(rows[|rows| - 1], SortById(rows[..|rows| - 1]));
      InsertByIdOrder(rows[|rows| - 1], SortById(rows[..|rows| - 1]));
      assert rows == rows[..|rows| - 1] + [rows[|rows| - 1]];
    }
  }

  lemma {:induction false} RowsOfCounts(rows: seq<Row>, session: string)
    ensures forall row :: multiset(RowsOf(rows, session))[row] ==
                          if row.session == session then multiset(rows)[row] else 0
  {
    if rows != [] {
      RowsOfCounts(rows[1..], session);
      assert rows == [rows[0]] + rows[1..];
    }
  }

  // ---------------------------------------------------------------- the two stores

  function NextId(rows: seq<Row>, session: string): int {
    MaxId(RowsOf(rows, session)) + 1
  }

  /** What is left of the log before the append: room for one more row of the session. */
  function Trimmed(rows: seq<Row>, session: string): seq<Row> {
    var mine := RowsOf(rows, session);
    if |mine| < CHAT_MESSAGE_CAP then rows
    else
      var trim := |mine| - CHAT_MESSAGE_CAP;
      var sorted := SortById(mine);
      if trim < |sorted| then DropUpTo(rows, session, sorted[trim].id) else rows
  }

  function Appended(rows: seq<Row>, session: string, body: string): seq<Row> {
    Trimmed(rows, session) + [Row(session, NextId(rows, session), body)]
  }

  function Listed(rows: seq<Row>, session: string): seq<Row> {
    SortById(RowsOf(rows, session))
  }

  /** The Postgres table: ids come from one serial for all sessions. */
  datatype Table = Table(rows: seq<Row>, serial: int)

  /** The `n` rows of a session with the smallest ids, on a table ordered by id. */
  function DropOldest(rows: seq<Row>, session: string, n: nat): seq<Row> {
    if rows == [] || n == 0 then rows
    else if rows[0].session == session then DropOldest(rows[1..], session, n - 1)
    else [rows[0]] + DropOldest(rows[1..], session, n)
  }

  /** Insert, then delete the surplus. */
  function TwinAppended(t: Table, session: string, body: string): Table {
    var rows := t.rows + [Row(session, t.serial, body)];
    var count := |RowsOf(rows, session)|;
    Table(if count > CHAT_MESSAGE_CAP then DropOldest(rows, session, count - CHAT_MESSAGE_CAP) else rows, t.serial + 1)
  }

  /** The log both stores are to show: the last CHAT_MESSAGE_CAP lines. */
  function Capped(log: seq<string>): seq<string> {
    if |log| <= CHAT_MESSAGE_CAP then log else log[|log| - CHAT_MESSAGE_CAP..]
  }

  // ---------------------------------------------------------------- the source's methods

  class MemoryStore {
    var chatMessages: seq<Row>

    constructor ()
      ensures chatMessages == []
    {
      chatMessages := [];
    }

    method AppendChatMessage(session: string, body: string) returns (record: Row)
      modifies this
      ensures chatMessages == Appended(old(chatMessages), session, body)
      ensures record == Row(session, NextId(old(chatMessages), session), body)
    {
      var rows := RowsOf(chatMessages, session);
      var next := MaxId(rows) + 1;
      if |rows| >= CHAT_MESSAGE_CAP {
        rows := SortById(rows);
        var trim := |rows| - CHAT_MESSAGE_CAP + 1;
        SortLength(RowsOf(chatMessages, session));
        var threshold := rows[trim - 1].id;
        chatMessages := Keep(chatMessages, session, threshold);
      }
      record := Row(session, next, body);
      chatMessages := chatMessages + [record];
    }

    /** The session's rows and no others, none twice that is stored once, by id. */
    method ListChatMessages(session: string) returns (rows: seq<Row>)
      ensures rows == Listed(chatMessages, session) && ById(rows)
      ensures forall row :: multiset(rows)[row] == if row.session == session then multiset(chatMessages)[row] else 0
    {
      rows := SortById(RowsOf(chatMessages, session));
      SortByIdFacts(RowsOf(chatMessages, session));
      RowsOfCounts(chatMessages, session);
    }

    method GetChatMessage(session: string, id: int) returns (row: Option<Row>)
      ensures match row
              case Some(r) => r in chatMessages && r.session == session && r.id == id
              case None =>
                forall i :: 0 <= i < |chatMessages| ==> chatMessages[i].session != session || chatMessages[i].id != id
    {
      var i := 0;
      while i < |chatMessages|
        invariant i <= |chatMessages|
        invariant forall j :: 0 <= j < i ==> chatMessages[j].session != session || chatMessages[j].id != id
      {
        if chatMessages[i].session == session && chatMessages[i].id == id { return Some(chatMessages[i]); }
        i := i + 1;
      }
      return None;
    }

    method DeleteChatMessage(session: string, id: int) returns (removed: bool)
      modifies this
      ensures chatMessages == DropId(old(chatMessages), session, id)
      ensures removed <==> |chatMessages| < |old(chatMessages)|
    {
      var before := chatMessages;
      chatMessages := [];
      var i := 0;
      ghost var all := DropId(before, session, id);
      assert before[0..] == before;
      while i < |before|
        invariant i <= |before| && all == chatMessages + DropId(before[i..], session, id)
      {
        assert before[i..][1..] == before[i + 1..];
        if !(before[i].session == session && before[i].id == id) {
          chatMessages := chatMessages + [before[i]];
        }
        i := i + 1;
      }
      return |chatMessages| < |before|;
    }
  }

  /** The comprehension that rebuilds the log without a session's oldest rows. */
  method Keep(rows: seq<Row>, session: string, threshold: int) returns (kept: seq<Row>)
    ensures kept == DropUpTo(rows, session, threshold)
  {
    kept := [];
    var i := 0;
    ghost var all := DropUpTo(rows, session, threshold);
    assert rows[0..] == rows;
    while i < |rows|
      invariant i <= |rows| && all == kept + DropUpTo(rows[i..], session, threshold)
    {
      assert rows[i..][1..] == rows[i + 1..];
      if !(rows[i].session == session && rows[i].id <= threshold) {
        kept := kept + [rows[i]];
      }
      i := i + 1;
    }
  }

  lemma {:induction false} SortLength(rows: seq<Row>)
    ensures |SortById(rows)| == |rows|
  {
    if rows != [] {
      SortLength(rows[..|rows| - 1]);
      InsertLength(rows[|rows| - 1], SortById(rows[..|rows| - 1]));
    }
  }

  lemma {:induction false} InsertLength(row: Row, rows: seq<Row>)
    ensures |InsertById(row, rows)| == |rows| + 1
  {
    if rows != [] && row.id >= rows[0].id { InsertLength(row, rows[1..]); }
  }

  // ---------------------------------------------------------------- the invariants

  /** Ids go up along the list and stay above a bound. */
  ghost predicate Ascending(rows: seq<Row>, above: int) {
    rows == [] || (rows[0].id > above && Ascending(rows[1..], rows[0].id))
  }

  ghost predicate MemoryOk(rows: seq<Row>) {
    forall s :: Ascending(RowsOf(rows, s), 0) && |RowsOf(rows, s)| <= CHAT_MESSAGE_CAP
  }

  /** All ids of a list are below a bound. */
  ghost predicate Below(rows: seq<Row>, bound: int) {
    rows == [] || (rows[0].id < bound && Below(rows[1..], bound))
  }

  ghost predicate TableOk(t: Table) {
    && Ascending(t.rows, 0) && Below(t.rows, t.serial) && t.serial > 0
    && forall s :: |RowsOf(t.rows, s)| <= CHAT_MESSAGE_CAP
  }

  lemma {:induction false} AscendingLower(rows: seq<Row>, high: int, low: int)
    requires Ascending(rows, high) && low <= high
    ensures Ascending(rows, low)
  {
  }

  lemma {:induction false} RowsAppend(rows: seq<Row>, row: Row, s: string)
    ensures RowsOf(rows + [row], s) == if row.session == s then RowsOf(rows, s) + [row] else RowsOf(rows, s)
  {
    if rows == [] {
      assert rows + [row] == [row] && [row][1..] == [];
    } else {
      assert (rows + [row])[1..] == rows[1..] + [row];
      RowsAppend(rows[1..], row, s);
    }
  }

  lemma {:induction false} BodiesAppend(rows: seq<Row>, row: Row)
    ensures Bodies(rows + [row]) == Bodies(rows) + [row.body] && |Bodies(rows)| == |rows|
  {
    if rows == [] {
      assert rows + [row] == [row] && [row][1..] == [];
    } else {
      assert (rows + [row])[1..] == rows[1..] + [row];
      BodiesAppend(rows[1..], row);
    }
  }

  lemma {:induction false} BodiesDrop(rows: seq<Row>, n: nat)
    requires n <= |rows|
    ensures |Bodies(rows)| == |rows| && Bodies(rows[n..]) == Bodies(rows)[n..]
  {
    if rows != [] {
      BodiesDrop(rows[1..], if n > 0 then n - 1 else 0);
      if n > 0 {
        assert rows[1..][n - 1..] == rows[n..];
      } else {
        assert rows[0..] == rows && Bodies(rows)[0..] == Bodies(rows);
      }
    }
  }

  lemma {:induction false} AscendingMax(rows: seq<Row>, above: int)
    requires Ascending(rows, above)
    ensures rows != [] ==> MaxId(rows) == rows[|rows| - 1].id && MaxId(rows) > above
    ensures forall i :: 0 <= i < |rows| ==> above < rows[i].id <= MaxId(rows)
  {
    if rows != [] { AscendingMax(rows[1..], rows[0].id); }
  }

  lemma {:induction false} AscendingAppend(rows: seq<Row>, above: int, row: Row)
    requires Ascending(rows, above) && row.id > above && (rows != [] ==> row.id > MaxId(rows))
    ensures Ascending(rows + [row], above)
  {
    if rows == [] {
      assert rows + [row] == [row] && [row][1..] == [];
    } else {
      assert (rows + [row])[1..] == rows[1..] + [row];
      AscendingMax(rows, above);
      AscendingMax(rows[1..], rows[0].id);
      assert rows[1..] != [] ==> MaxId(rows[1..]) <= MaxId(rows);
      AscendingAppend(rows[1..], rows[0].id, row);
    }
  }

  /** On ascending rows sorting changes nothing. */
  lemma {:induction false} SortAscending(rows: seq<Row>, above: int)
    requires Ascending(rows, above)
    ensures SortById(rows) == rows
    decreases |rows|
  {
    if rows != [] {
      var front, last := rows[..|rows| - 1], rows[|rows| - 1];
      assert rows == front + [last];
      AscendingFront(rows, above);
      SortAscending(front, above);
      AscendingMax(rows, above);
      InsertLast(last, front);
    }
  }

  lemma {:induction false} AscendingFront(rows: seq<Row>, above: int)
    requires Ascending(rows, above) && rows != []
    ensures Ascending(rows[..|rows| - 1], above)
  {
    if |rows| > 1 {
      AscendingFront(rows[1..], rows[0].id);
      assert rows[..|rows| - 1][1..] == rows[1..][..|rows| - 2];
    }
  }

  lemma {:induction false} InsertLast(row: Row, rows: seq<Row>)
    requires forall i :: 0 <= i < |rows| ==> rows[i].id <= row.id
    ensures InsertById(row, rows) == rows + [row]
  {
    if rows != [] { InsertLast(row, rows[1..]); }
  }

  // ---------------------------------------------------------------- the in-memory store

  lemma {:induction false} DropUpToOthers(rows: seq<Row>, session: string, threshold: int, s: string)
    ensures s != session ==> RowsOf(DropUpTo(rows, session, threshold), s) == RowsOf(rows, s)
    ensures RowsOf(DropUpTo(rows, session, threshold), session) == DropUpTo(RowsOf(rows, session), session, threshold)
  {
    if rows != [] { DropUpToOthers(rows[1..], session, threshold, s); }
  }

  ghost predicate AllOf(rows: seq<Row>, session: string) {
    forall i :: 0 <= i < |rows| ==> rows[i].session == session
  }

  lemma {:induction false} RowsAreTheirs(rows: seq<Row>, session: string)
    ensures AllOf(RowsOf(rows, session), session)
  {
    if rows != [] { RowsAreTheirs(rows[1..], session); }
  }

  /** Removing up to the n-th id of ascending rows removes the first n + 1 rows. */
  lemma {:induction false} DropAscending(rows: seq<Row>, session: string, above: int, n: nat)
    requires Ascending(rows, above) && AllOf(rows, session) && n < |rows|
    ensures DropUpTo(rows, session, rows[n].id) == rows[n + 1..]
  {
    AscendingMax(rows[1..], rows[0].id);
    if n == 0 {
      DropNone(rows[1..], session, rows[0].id);
    } else {
      DropAscending(rows[1..], session, rows[0].id, n - 1);
      assert rows[1..][n - 1] == rows[n] && rows[1..][n..] == rows[n + 1..];
    }
  }

  lemma {:induction false} DropNone(rows: seq<Row>, session: string, threshold: int)
    requires Ascending(rows, threshold)
    ensures DropUpTo(rows, session, threshold) == rows
  {
    if rows != [] {
      AscendingLower(rows[1..], rows[0].id, threshold);
      DropNone(rows[1..], session, threshold);
    }
  }

  lemma {:induction false} AscendingSuffix(rows: seq<Row>, above: int, n: nat)
    requires Ascending(rows, above) && n <= |rows|
    ensures Ascending(rows[n..], above)
  {
    if n > 0 {
      AscendingSuffix(rows[1..], rows[0].id, n - 1);
      assert rows[1..][n - 1..] == rows[n..];
      AscendingLower(rows[n..], rows[0].id, above);
    } else {
      assert rows[0..] == rows;
    }
  }

  /** The rows of the session that an append leaves: the newest that fit, and the new one. */
  lemma TrimmedRows(rows: seq<Row>, session: string)
    requires MemoryOk(rows)
    ensures var mine := RowsOf(rows, session);
            RowsOf(Trimmed(rows, session), session) == if |mine| < CHAT_MESSAGE_CAP then mine else mine[1..]
    ensures forall s :: s != session ==> RowsOf(Trimmed(rows, session), s) == RowsOf(rows, s)
  {
    hide DropUpTo, RowsOf, SortById;
    var mine := RowsOf(rows, session);
    assert Ascending(mine, 0) && |mine| <= CHAT_MESSAGE_CAP;
    if |mine| >= CHAT_MESSAGE_CAP {
      SortAscending(mine, 0);
      RowsAreTheirs(rows, session);
      DropAscending(mine, session, 0, 0);
      forall s ensures s != session ==> RowsOf(Trimmed(rows, session), s) == RowsOf(rows, s) {
        DropUpToOthers(rows, session, mine[0].id, s);
      }
      DropUpToOthers(rows, session, mine[0].id, session);
    }
  }

  function Newest(rows: seq<Row>, n: nat): seq<Row> {
    if |rows| <= n then rows else rows[|rows| - n..]
  }

  /** One session's rows after an append. */
  lemma NewestAndOne(mine: seq<Row>, row: Row)
    requires Ascending(mine, 0) && |mine| <= CHAT_MESSAGE_CAP && row.id == MaxId(mine) + 1
    ensures var after := Newest(mine, CHAT_MESSAGE_CAP - 1) + [row];
            && Ascending(after, 0) && |after| <= CHAT_MESSAGE_CAP
            && Bodies(after) == Capped(Bodies(mine) + [row.body])
            && MaxId(after) == row.id
  {
    var kept := Newest(mine, CHAT_MESSAGE_CAP - 1);
    var out := |mine| - |kept|;
    AscendingMax(mine, 0);
    AscendingSuffix(mine, 0, out);
    assert mine[out..] == kept;
    AscendingMax(kept, 0);
    AscendingAppend(kept, 0, row);
    AscendingMax(kept + [row], 0);
    BodiesAppend(kept, row);
    BodiesDrop(mine, out);
    assert (Bodies(mine) + [row.body])[out..] == Bodies(mine)[out..] + [row.body];
  }

  lemma {:induction false} MaxIsOneOf(rows: seq<Row>)
    requires rows != []
    ensures exists i :: 0 <= i < |rows| && rows[i].id == MaxId(rows)
    ensures forall i :: 0 <= i < |rows| ==> rows[i].id <= MaxId(rows)
  {
    if |rows| == 1 {
      assert rows[0].id == MaxId(rows);
    } else {
      MaxIsOneOf(rows[1..]);
      var i :| 0 <= i < |rows[1..]| && rows[1..][i].id == MaxId(rows[1..]);
      assert rows[i + 1].id == MaxId(rows) || rows[0].id == MaxId(rows);
      assert forall j :: 1 <= j < |rows| ==> rows[j] == rows[1..][j - 1];
    }
  }

  lemma {:induction false} RowsOfMembers(rows: seq<Row>, session: string)
    ensures forall row :: row in RowsOf(rows, session) <==> row in rows && row.session == session
  {
    if rows != [] {
      RowsOfMembers(rows[1..], session);
      assert rows == [rows[0]] + rows[1..];
    }
  }

  /** Of any rows at all: the next id is one more than the highest of the session's, and 1 if it has none. */
  lemma NextIdFollowsTheHighest(rows: seq<Row>, session: string)
    ensures (forall row :: row in rows && row.session == session ==> row.id < NextId(rows, session))
    ensures (exists row :: row in rows && row.session == session && row.id + 1 == NextId(rows, session))
            || (NextId(rows, session) == 1 && forall row :: row in rows ==> row.session != session)
  {
    var mine := RowsOf(rows, session);
    RowsOfMembers(rows, session);
    if mine == [] {
      forall row | row in rows ensures row.session != session { assert row !in mine; }
    } else {
      MaxIsOneOf(mine);
      var i :| 0 <= i < |mine| && mine[i].id == MaxId(mine);
      assert mine[i] in mine;
    }
  }

  /** An append shows the capped log, gives an id above every live id of the session, keeps ids going
      up, and touches no other session. */
  lemma AppendShowsCapped(rows: seq<Row>, session: string, body: string)
    requires MemoryOk(rows)
    ensures MemoryOk(Appended(rows, session, body))
    ensures Bodies(RowsOf(Appended(rows, session, body), session)) == Capped(Bodies(RowsOf(rows, session)) + [body])
    ensures forall s :: s != session ==> RowsOf(Appended(rows, session, body), s) == RowsOf(rows, s)
    ensures forall i :: 0 <= i < |RowsOf(rows, session)| ==> RowsOf(rows, session)[i].id < NextId(rows, session)
    ensures MaxId(RowsOf(Appended(rows, session, body), session)) == NextId(rows, session)
  {
    var mine, trimmed := RowsOf(rows, session), Trimmed(rows, session);
    var row := Row(session, NextId(rows, session), body);
    assert Ascending(mine, 0) && |mine| <= CHAT_MESSAGE_CAP;
    TrimmedRows(rows, session);
    AscendingMax(mine, 0);
    NewestAndOne(mine, row);
    assert RowsOf(trimmed, session) == Newest(mine, CHAT_MESSAGE_CAP - 1);
    forall s
      ensures RowsOf(trimmed + [row], s) ==
              if s == session then Newest(mine, CHAT_MESSAGE_CAP - 1) + [row] else RowsOf(rows, s)
    {
      RowsAppend(trimmed, row, s);
    }
    forall s ensures Ascending(RowsOf(trimmed + [row], s), 0) && |RowsOf(trimmed + [row], s)| <= CHAT_MESSAGE_CAP {
      assert Ascending(RowsOf(rows, s), 0) && |RowsOf(rows, s)| <= CHAT_MESSAGE_CAP;
    }
  }

  // ---------------------------------------------------------------- withdrawing

  function RemoveAt<T>(s: seq<T>, k: nat): seq<T> {
    if k < |s| then s[..k] + s[k + 1..] else s
  }

  lemma {:induction false} DropIdRows(rows: seq<Row>, session: string, id: int, s: string)
    ensures s != session ==> RowsOf(DropId(rows, session, id), s) == RowsOf(rows, s)
    ensures RowsOf(DropId(rows, session, id), session) == DropId(RowsOf(rows, session), session, id)
  {
    if rows != [] { DropIdRows(rows[1..], session, id, s); }
  }

  lemma {:induction false} BodiesRemove(rows: seq<Row>, k: nat)
    ensures Bodies(RemoveAt(rows, k)) == RemoveAt(Bodies(rows), k) && |Bodies(rows)| == |rows|
  {
    BodiesDrop(rows, 0);
    if 0 < k < |rows| {
      BodiesRemove(rows[1..], k - 1);
      RemoveLater(rows, k);
      RemoveLater(Bodies(rows), k);
      assert Bodies(rows)[1..] == Bodies(rows[1..]);
    } else if 0 == k < |rows| {
      assert RemoveAt(rows, 0) == rows[1..] && RemoveAt(Bodies(rows), 0) == Bodies(rows)[1..];
    }
  }

  lemma RemoveLater<T>(s: seq<T>, k: nat)
    requires 0 < k < |s|
    ensures RemoveAt(s, k) == [s[0]] + RemoveAt(s[1..], k - 1)
  {
  }

  /** On ascending rows of one session an id names one position. */
  lemma {:induction false} DropIdAscending(rows: seq<Row>, session: string, above: int, k: nat)
    requires Ascending(rows, above) && AllOf(rows, session) && k < |rows|
    ensures DropId(rows, session, rows[k].id) == RemoveAt(rows, k)
    ensures Ascending(RemoveAt(rows, k), above)
  {
    AscendingMax(rows[1..], rows[0].id);
    if k == 0 {
      DropIdAbsent(rows[1..], session, rows[0].id);
      assert RemoveAt(rows, 0) == rows[1..];
      AscendingLower(rows[1..], rows[0].id, above);
    } else {
      DropIdAscending(rows[1..], session, rows[0].id, k - 1);
      RemoveLater(rows, k);
    }
  }

  lemma {:induction false} DropIdAbsent(rows: seq<Row>, session: string, id: int)
    requires forall i :: 0 <= i < |rows| ==> rows[i].id != id
    ensures DropId(rows, session, id) == rows
  {
    if rows != [] { DropIdAbsent(rows[1..], session, id); }
  }

  // ---------------------------------------------------------------- the Postgres twin

  lemma {:induction false} DropOldestRows(rows: seq<Row>, session: string, n: nat, s: string)
    requires n <= |RowsOf(rows, session)|
    ensures RowsOf(DropOldest(rows, session, n), s) == if s == session then RowsOf(rows, s)[n..] else RowsOf(rows, s)
  {
    if rows != [] && n > 0 {
      DropOldestRows(rows[1..], session, if rows[0].session == session then n - 1 else n, s);
    }
  }

  lemma {:induction false} DropOldestOrder(rows: seq<Row>, session: string, n: nat, above: int, bound: int)
    requires Ascending(rows, above) && Below(rows, bound)
    ensures Ascending(DropOldest(rows, session, n), above) && Below(DropOldest(rows, session, n), bound)
  {
    if rows != [] && n > 0 {
      DropOldestOrder(rows[1..], session, if rows[0].session == session then n - 1 else n, rows[0].id, bound);
      if rows[0].session == session {
        AscendingLower(DropOldest(rows, session, n), rows[0].id, above);
      }
    }
  }

  lemma {:induction false} DropIdOrder(rows: seq<Row>, session: string, id: int, above: int, bound: int)
    requires Ascending(rows, above) && Below(rows, bound)
    ensures Ascending(DropId(rows, session, id), above) && Below(DropId(rows, session, id), bound)
  {
    if rows != [] {
      DropIdOrder(rows[1..], session, id, rows[0].id, bound);
      if rows[0].session == session && rows[0].id == id {
        AscendingLower(DropId(rows[1..], session, id), rows[0].id, above);
      }
    }
  }

  lemma {:induction false} RowsAscending(rows: seq<Row>, s: string, above: int)
    requires Ascending(rows, above)
    ensures Ascending(RowsOf(rows, s), above)
  {
    if rows != [] {
      RowsAscending(rows[1..], s, rows[0].id);
      AscendingLower(RowsOf(rows[1..], s), rows[0].id, above);
    }
  }

  lemma {:induction false} BelowAppend(rows: seq<Row>, above: int, row: Row)
    requires Ascending(rows, above) && Below(rows, row.id) && row.id > above
    ensures Ascending(rows + [row], above) && Below(rows + [row], row.id + 1)
  {
    if rows == [] {
      assert rows + [row] == [row] && [row][1..] == [];
    } else {
      assert (rows + [row])[1..] == rows[1..] + [row];
      BelowAppend(rows[1..], rows[0].id, row);
    }
  }

  lemma TwinAppendShowsCapped(t: Table, session: string, body: string)
    requires TableOk(t)
    ensures TableOk(TwinAppended(t, session, body))
    ensures forall s :: Bodies(RowsOf(TwinAppended(t, session, body).rows, s)) ==
                        if s == session then Capped(Bodies(RowsOf(t.rows, s)) + [body]) else Bodies(RowsOf(t.rows, s))
  {
    var row := Row(session, t.serial, body);
    var rows := t.rows + [row];
    var mine := RowsOf(t.rows, session);
    BelowAppend(t.rows, 0, row);
    RowsAppend(t.rows, row, session);
    BodiesAppend(mine, row);
    var surplus := if |mine| + 1 > CHAT_MESSAGE_CAP then |mine| + 1 - CHAT_MESSAGE_CAP else 0;
    var left := DropOldest(rows, session, surplus);
    assert TwinAppended(t, session, body).rows == left;
    DropOldestOrder(rows, session, surplus, 0, t.serial + 1);
    assert |mine| <= CHAT_MESSAGE_CAP;
    forall s ensures RowsOf(left, s) == if s == session then (mine + [row])[surplus..] else RowsOf(t.rows, s) {
      RowsAppend(t.rows, row, s);
      DropOldestRows(rows, session, surplus, s);
    }
    BodiesDrop(mine + [row], surplus);
    assert (Bodies(mine) + [body])[0..] == Bodies(mine) + [body];
    forall s ensures |RowsOf(left, s)| <= CHAT_MESSAGE_CAP {
      assert |RowsOf(t.rows, s)| <= CHAT_MESSAGE_CAP;
    }
  }

  // ---------------------------------------------------------------- both stores over any run

  /** An append, or the withdrawal of the `k`-th line a session shows. */
  datatype Op = Append(session: string, body: string) | Withdraw(session: string, k: nat)

  function MemoryStep(rows: seq<Row>, op: Op): seq<Row> {
    match op
    case Append(session, body) => Appended(rows, session, body)
    case Withdraw(session, k) =>
      var shown := Listed(rows, session);
      if k < |shown| then DropId(rows, session, shown[k].id) else rows
  }

  function TwinStep(t: Table, op: Op): Table {
    match op
    case Append(session, body) => TwinAppended(t, session, body)
    case Withdraw(session, k) =>
      var shown := RowsOf(t.rows, session);
      if k < |shown| then t.(rows := DropId(t.rows, session, shown[k].id)) else t
  }

  function MemoryRun(rows: seq<Row>, ops: seq<Op>): seq<Row>
    decreases ops
  {
    if ops == [] then rows else MemoryRun(MemoryStep(rows, ops[0]), ops[1..])
  }

  function TwinRun(t: Table, ops: seq<Op>): Table
    decreases ops
  {
    if ops == [] then t else TwinRun(TwinStep(t, ops[0]), ops[1..])
  }

  ghost predicate SameLogs(rows: seq<Row>, t: Table) {
    forall s :: Bodies(RowsOf(rows, s)) == Bodies(RowsOf(t.rows, s))
  }

  lemma WithdrawMemory(rows: seq<Row>, session: string, k: nat)
    requires MemoryOk(rows)
    ensures MemoryOk(MemoryStep(rows, Withdraw(session, k)))
    ensures forall s :: RowsOf(MemoryStep(rows, Withdraw(session, k)), s) ==
                        if s == session then RemoveAt(RowsOf(rows, s), k) else RowsOf(rows, s)
    ensures Bodies(RemoveAt(RowsOf(rows, session), k)) == RemoveAt(Bodies(RowsOf(rows, session)), k)
  {
    var mine, after := RowsOf(rows, session), MemoryStep(rows, Withdraw(session, k));
    assert Ascending(mine, 0) && |mine| <= CHAT_MESSAGE_CAP;
    SortAscending(mine, 0);
    BodiesRemove(mine, k);
    if k < |mine| {
      RowsAreTheirs(rows, session);
      DropIdAscending(mine, session, 0, k);
      forall s ensures RowsOf(after, s) == if s == session then RemoveAt(mine, k) else RowsOf(rows, s) {
        DropIdRows(rows, session, mine[k].id, s);
      }
      forall s ensures Ascending(RowsOf(after, s), 0) && |RowsOf(after, s)| <= CHAT_MESSAGE_CAP {
        assert Ascending(RowsOf(rows, s), 0) && |RowsOf(rows, s)| <= CHAT_MESSAGE_CAP;
      }
    }
  }

  lemma WithdrawTwin(t: Table, session: string, k: nat)
    requires TableOk(t)
    ensures TableOk(TwinStep(t, Withdraw(session, k)))
    ensures forall s :: Bodies(RowsOf(TwinStep(t, Withdraw(session, k)).rows, s)) ==
                        if s == session then RemoveAt(Bodies(RowsOf(t.rows, s)), k) else Bodies(RowsOf(t.rows, s))
  {
    var mine := RowsOf(t.rows, session);
    RowsAscending(t.rows, session, 0);
    BodiesRemove(mine, k);
    if k < |mine| {
      RowsAreTheirs(t.rows, session);
      DropIdAscending(mine, session, 0, k);
      DropIdOrder(t.rows, session, mine[k].id, 0, t.serial);
      var left := DropId(t.rows, session, mine[k].id);
      forall s ensures RowsOf(left, s) == if s == session then RemoveAt(mine, k) else RowsOf(t.rows, s) {
        DropIdRows(t.rows, session, mine[k].id, s);
      }
      forall s ensures |RowsOf(left, s)| <= CHAT_MESSAGE_CAP {
        assert |RowsOf(t.rows, s)| <= CHAT_MESSAGE_CAP;
      }
    }
  }

  lemma StepKeepsTwins(rows: seq<Row>, t: Table, op: Op)
    requires MemoryOk(rows) && TableOk(t) && SameLogs(rows, t)
    ensures MemoryOk(MemoryStep(rows, op)) && TableOk(TwinStep(t, op)) &&
            SameLogs(MemoryStep(rows, op), TwinStep(t, op))
  {
    match op {
      case Append(session, body) =>
        AppendShowsCapped(rows, session, body);
        TwinAppendShowsCapped(t, session, body);
      case Withdraw(session, k) =>
        WithdrawMemory(rows, session, k);
        WithdrawTwin(t, session, k);
    }
    forall s ensures Bodies(RowsOf(MemoryStep(rows, op), s)) == Bodies(RowsOf(TwinStep(t, op).rows, s)) {
      assert Bodies(RowsOf(rows, s)) == Bodies(RowsOf(t.rows, s));
    }
  }

  lemma {:induction false} RunKeepsTwins(rows: seq<Row>, t: Table, ops: seq<Op>)
    requires MemoryOk(rows) && TableOk(t) && SameLogs(rows, t)
    ensures MemoryOk(MemoryRun(rows, ops)) && TableOk(TwinRun(t, ops)) &&
            SameLogs(MemoryRun(rows, ops), TwinRun(t, ops))
    decreases |ops|
  {
    if ops != [] {
      StepKeepsTwins(rows, t, ops[0]);
      RunKeepsTwins(MemoryStep(rows, ops[0]), TwinStep(t, ops[0]), ops[1..]);
    }
  }

  /** After any run of appends and withdrawals every session shows the same log in both stores, of at
      most CHAT_MESSAGE_CAP lines, with ids that strictly go up. */
  lemma TwinsShowTheSameLog(ops: seq<Op>, session: string)
    ensures var memory, twin := Listed(MemoryRun([], ops), session), RowsOf(TwinRun(Table([], 1), ops).rows, session);
            && Bodies(memory) == Bodies(twin)
            && |memory| <= CHAT_MESSAGE_CAP && Ascending(memory, 0) && Ascending(twin, 0)
  {
    RunKeepsTwins([], Table([], 1), ops);
    var rows, t := MemoryRun([], ops), TwinRun(Table([], 1), ops);
    assert Ascending(RowsOf(rows, session), 0) && |RowsOf(rows, session)| <= CHAT_MESSAGE_CAP;
    assert Bodies(RowsOf(rows, session)) == Bodies(RowsOf(t.rows, session));
    SortAscending(RowsOf(rows, session), 0);
    RowsAscending(t.rows, session, 0);
  }

  // ---------------------------------------------------------------- when ids repeat

  /** The ids the in-memory store gives a session during a run. */
  function Issued(rows: seq<Row>, ops: seq<Op>, session: string): seq<int>
    decreases ops
  {
    if ops == [] then []
    else if ops[0].Append? && ops[0].session == session then
      [NextId(rows, session)] + Issued(MemoryStep(rows, ops[0]), ops[1..], session)
    else Issued(MemoryStep(rows, ops[0]), ops[1..], session)
  }

  /** No withdrawal of the run takes the newest line the session shows. */
  ghost predicate SparesNewest(rows: seq<Row>, ops: seq<Op>, session: string)
    decreases ops
  {
    ops == [] ||
    (&& (ops[0].Withdraw? && ops[0].session == session ==> ops[0].k + 1 != |RowsOf(rows, session)|)
     && SparesNewest(MemoryStep(rows, ops[0]), ops[1..], session))
  }

  ghost predicate Rising(ids: seq<int>, above: int) {
    ids == [] || (ids[0] > above && Rising(ids[1..], ids[0]))
  }

  /** Withdrawing any line but the newest keeps the highest live id. */
  lemma RemoveKeepsMax(rows: seq<Row>, k: nat)
    requires Ascending(rows, 0) && k + 1 != |rows| && Ascending(RemoveAt(rows, k), 0)
    ensures MaxId(RemoveAt(rows, k)) == MaxId(rows)
  {
    AscendingMax(rows, 0);
    AscendingMax(RemoveAt(rows, k), 0);
    if k < |rows| {
      assert RemoveAt(rows, k)[|rows| - 2] == rows[|rows| - 1];
    }
  }

  /** While the newest line is spared every id a session hands out is larger than all before. */
  lemma {:induction false} IdsNeverRepeat(rows: seq<Row>, ops: seq<Op>, session: string)
    requires MemoryOk(rows) && SparesNewest(rows, ops, session)
    ensures Rising(Issued(rows, ops, session), MaxId(RowsOf(rows, session)))
    decreases |ops|
  {
    if ops != [] {
      var op := ops[0];
      var next := MemoryStep(rows, op);
      match op {
        case Append(s, body) => AppendShowsCapped(rows, s, body);
        case Withdraw(s, k) =>
          WithdrawMemory(rows, s, k);
          if s == session {
            assert Ascending(RowsOf(rows, s), 0) && Ascending(RowsOf(next, s), 0);
            RemoveKeepsMax(RowsOf(rows, s), k);
          }
      }
      assert op.session != session ==> RowsOf(next, session) == RowsOf(rows, session);
      IdsNeverRepeat(next, ops[1..], session);
    }
  }

  /** The highest id a session was ever given. */
  function HighWater(rows: seq<Row>, ops: seq<Op>, session: string, high: int): int
    decreases ops
  {
    if ops == [] then high
    else
      var id := NextId(rows, session);
      HighWater(MemoryStep(rows, ops[0]), ops[1..], session,
                if ops[0].Append? && ops[0].session == session && id > high then id else high)
  }

  /** Ids are handed out without gaps: exactly those up to the highest were given to some line. */
  lemma {:induction false} IssuedWithoutGaps(rows: seq<Row>, ops: seq<Op>, session: string, high: int)
    requires MemoryOk(rows) && MaxId(RowsOf(rows, session)) <= high
    ensures var top := HighWater(rows, ops, session, high);
            && top >= high && MaxId(RowsOf(MemoryRun(rows, ops), session)) <= top
            && (forall id :: high < id <= top ==> id in Issued(rows, ops, session))
            && (forall id :: id in Issued(rows, ops, session) ==> 1 <= id <= top)
    decreases |ops|
  {
    hide Trimmed, SortById, DropId;
    if ops != [] {
      var op := ops[0];
      var next := MemoryStep(rows, op);
      var id := NextId(rows, session);
      match op {
        case Append(s, body) => AppendShowsCapped(rows, s, body);
        case Withdraw(s, k) =>
          WithdrawMemory(rows, s, k);
          if s == session {
            RemoveLowersMax(RowsOf(rows, s), k);
          }
      }
      var mine := op.Append? && op.session == session;
      IssuedWithoutGaps(next, ops[1..], session, if mine && id > high then id else high);
    }
  }

  lemma RemoveLowersMax(rows: seq<Row>, k: nat)
    requires Ascending(rows, 0)
    ensures MaxId(RemoveAt(rows, k)) <= MaxId(rows)
  {
    AscendingMax(rows, 0);
    if k < |rows| {
      AllOfMax(RemoveAt(rows, k), MaxId(rows));
    }
  }

  lemma {:induction false} AllOfMax(rows: seq<Row>, bound: int)
    requires bound >= 0 && forall i :: 0 <= i < |rows| ==> rows[i].id <= bound
    ensures MaxId(rows) <= bound
  {
    if rows != [] { AllOfMax(rows[1..], bound); }
  }

  /** After any run, the next line of a session gets an id that was given before if and only if the line
      with the highest id ever given is no longer there. */
  lemma NextIdRepeatsExactlyWhen(ops: seq<Op>, session: string)
    ensures var rows := MemoryRun([], ops);
            var top := HighWater([], ops, session, 0);
            NextId(rows, session) in Issued([], ops, session) <==>
              top > 0 && forall i :: 0 <= i < |RowsOf(rows, session)| ==> RowsOf(rows, session)[i].id != top
    ensures forall id :: 1 <= id <= HighWater([], ops, session, 0) <==> id in Issued([], ops, session)
  {
    RunKeepsTwins([], Table([], 1), ops);
    IssuedWithoutGaps([], ops, session, 0);
    var mine := RowsOf(MemoryRun([], ops), session);
    assert Ascending(mine, 0);
    AscendingMax(mine, 0);
  }

  /** A first line is withdrawn: the next one gets its id. */
  lemma WithdrawnIdComesAgain(session: string, body: string)
    ensures var ops := [Append(session, body), Withdraw(session, 0)];
            NextId(MemoryRun([], ops), session) == 1 && Issued([], ops, session) == [1]
  {
    var first, second := Append(session, body), Withdraw(session, 0);
    assert [first, second][1..] == [second] && [second][1..] == [];
    var row := Row(session, 1, body);
    assert MemoryStep([], first) == [row];
    assert [row][1..] == [] && [row][..0] == [];
    assert RowsOf([row], session) == [row] && SortById([row]) == InsertById(row, []);
    assert MemoryStep([row], second) == DropId([row], session, 1) == [];
    assert MemoryRun([], [first, second]) == MemoryRun([row], [second]);
    assert MemoryRun([row], [second]) == MemoryRun([], []);
    assert Issued([], [first, second], session) == [1] + Issued([row], [second], session);
  }
}
