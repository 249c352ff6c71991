/** What each role sees of the timeline (python/vtt_orchestrator/timeline.py): the projection of one
    entry, its laws, and the projected feed the route pages through. */
module TimelineProjection {
  import opened Text
  import opened Timeline

  /** Roster entries carry an optional visibility flag; only an explicit `false` hides. */
  type Roster = map<string, Option<bool>>

  const UNKNOWN := "[Unknown]"
  const PRIVATE_PLACEHOLDER := "Something happens"

  predicate Privileged(role: string) {
    role == "gm" || role == "admin"
  }

  predicate PublicChannel(channel: string) {
    channel == "" || channel == "public" || channel == "system" || channel == "ooc"
  }

  predicate HiddenEntity(id: string, roster: Roster) {
    id != "" && id in roster && roster[id] == Some(false)
  }

  predicate HiddenActor(e: Entry, roster: Roster) {
    e.actorId.Some? && HiddenEntity(e.actorId.value, roster)
  }

  function Named(ids: seq<string>): seq<string> {
    if ids == [] then []
    else if ids[0] != "" then [ids[0]] + Named(ids[1..])
    else Named(ids[1..])
  }

  /** Ids an entry refers to: the list its formatter recorded, else whatever `idsIn` finds in the summary. */
  function TargetIds(e: Entry, idsIn: string -> seq<string>): seq<string> {
    if e.eventType.None? then []
    else if e.referenced.Some? then Named(e.referenced.value)
    else idsIn(e.summary)
  }

  predicate AnyHidden(ids: seq<string>, roster: Roster) {
    ids != [] && (HiddenEntity(ids[0], roster) || AnyHidden(ids[1..], roster))
  }

  /** Drops the ids that are both hidden and among `targets`. */
  function Redacted(ids: seq<string>, targets: seq<string>, roster: Roster): seq<string> {
    if ids == [] then []
    else if ids[0] in targets && HiddenEntity(ids[0], roster) then Redacted(ids[1..], targets, roster)
    else [ids[0]] + Redacted(ids[1..], targets, roster)
  }

  function Project(e: Entry, role: string, roster: Roster, idsIn: string -> seq<string>): Option<Entry> {
    if Privileged(role) then Some(e)
    else if !PublicChannel(e.channel) then
      if role == "spectator" then None
      else Some(e.(actorName := Some(UNKNOWN), summary := PRIVATE_PLACEHOLDER, eventType := None, isPrivate := true))
    else
      var targets := TargetIds(e, idsIn);
      var hiddenActor := HiddenActor(e, roster);
      if hiddenActor || AnyHidden(targets, roster) then
        Some(e.(actorName := if hiddenActor then Some(UNKNOWN) else e.actorName,
                summary := PRIVATE_PLACEHOLDER, eventType := None, isPrivate := true,
                actorId := if hiddenActor then None else e.actorId,
                referenced := if e.referenced.Some? then Some(Redacted(e.referenced.value, targets, roster)) else None))
      else Some(e)
  }

  /** The projected list, entries a viewer is not entitled to left out. */
  function ProjectAll(entries: seq<Entry>, role: string, roster: Roster, idsIn: string -> seq<string>): seq<Entry> {
    if entries == [] then []
    else match Project(entries[0], role, roster, idsIn)
         case None => ProjectAll(entries[1..], role, roster, idsIn)
         case Some(e) => [e] + ProjectAll(entries[1..], role, roster, idsIn)
  }

  /** The route's loop. */
  method ProjectFeed(merged: seq<Entry>, role: string, roster: Roster, idsIn: string -> seq<string>)
    returns (projected: seq<Entry>)
    ensures projected == ProjectAll(merged, role, roster, idsIn)
  {
    projected := [];
    var i := 0;
    ghost var all := ProjectAll(merged, role, roster, idsIn);
    assert merged[0..] == merged;
    while i < |merged|
      invariant i <= |merged| && all == projected + ProjectAll(merged[i..], role, roster, idsIn)
    {
      assert merged[i..][1..] == merged[i + 1..];
      var e := Project(merged[i], role, roster, idsIn);
      if e.Some? {
        projected := projected + [e.value];
      }
      i := i + 1;
    }
  }

  // ---------------------------------------------------------------- one entry

  lemma {:induction false} RedactedKeeps(ids: seq<string>, targets: seq<string>, roster: Roster)
    ensures forall id :: id in Redacted(ids, targets, roster) <==>
            id in ids && !(id in targets && HiddenEntity(id, roster))
  {
    if ids != [] {
      RedactedKeeps(ids[1..], targets, roster);
      assert forall id :: id in ids <==> id == ids[0] || id in ids[1..];
    }
  }

  lemma {:induction false} NamedKeeps(ids: seq<string>)
    ensures forall id :: id in Named(ids) <==> id in ids && id != ""
  {
    if ids != [] {
      NamedKeeps(ids[1..]);
      assert forall id :: id in ids <==> id == ids[0] || id in ids[1..];
    }
  }

  lemma {:induction false} AnyHiddenMember(ids: seq<string>, roster: Roster)
    ensures AnyHidden(ids, roster) <==> exists id :: id in ids && HiddenEntity(id, roster)
  {
    if ids != [] {
      AnyHiddenMember(ids[1..], roster);
      assert forall id :: id in ids <==> id == ids[0] || id in ids[1..];
    }
  }

  /** A projection keeps the entry's place in the feed and its channel, and projecting again changes
      nothing more. */
  lemma ProjectionIsStable(e: Entry, role: string, roster: Roster, idsIn: string -> seq<string>)
    ensures match Project(e, role, roster, idsIn)
            case None => role == "spectator" && !PublicChannel(e.channel)
            case Some(p) =>
              && p.ms == e.ms && p.kind == e.kind && p.sequenceId == e.sequenceId && p.channel == e.channel
              && Project(p, role, roster, idsIn) == Some(p)
  {
    if !Privileged(role) && PublicChannel(e.channel) && Project(e, role, roster, idsIn) != Some(e) {
      var p := Project(e, role, roster, idsIn).value;
      assert TargetIds(p, idsIn) == [];
    }
  }

  /** A hidden entity's id is among those recorded with the entry. */
  ghost predicate ReferencesHidden(e: Entry, roster: Roster) {
    e.referenced.Some? && exists id :: id in e.referenced.value && HiddenEntity(id, roster)
  }

  /** The actor's id of a public entry never remains when hidden. The ids recorded with it are cleaned
      exactly when the event has a type or none of them was hidden. Its details are withheld exactly when
      the actor or, for an event with a type, a target is hidden. */
  lemma HiddenEntitiesStayHidden(e: Entry, role: string, roster: Roster, idsIn: string -> seq<string>)
    requires !Privileged(role) && PublicChannel(e.channel)
    ensures var p := Project(e, role, roster, idsIn).value;
            && !HiddenActor(p, roster)
            && (!ReferencesHidden(p, roster) <==> e.eventType.Some? || !ReferencesHidden(e, roster))
            && (p != e ==> p.summary == PRIVATE_PLACEHOLDER && p.eventType == None)
            && (e.eventType.None? ==> (p != e <==> HiddenActor(e, roster)))
            && (e.eventType.Some? && e.referenced.Some? ==>
                (p != e <==> HiddenActor(e, roster) || ReferencesHidden(e, roster)))
  {
    AnyHiddenMember(TargetIds(e, idsIn), roster);
    if e.referenced.Some? {
      NamedKeeps(e.referenced.value);
      RedactedKeeps(e.referenced.value, TargetIds(e, idsIn), roster);
    }
  }

  lemma {:induction false} RedactedCounts(ids: seq<string>, targets: seq<string>, roster: Roster, id: string)
    ensures multiset(Redacted(ids, targets, roster))[id] ==
            if id in targets && HiddenEntity(id, roster) then 0 else multiset(ids)[id]
  {
    if ids != [] {
      RedactedCounts(ids[1..], targets, roster, id);
      assert ids == [ids[0]] + ids[1..];
    }
  }

  /** Only "gm" and "admin" see every entry as it is. To anyone else a public entry that involves a hidden entity,
      as its actor or, if it has a type, among the entities it refers to, shows that something happened and nothing
      of what; the hidden actor's name and id are gone, a visible actor's stay; and of the recorded ids a typed
      event keeps those of visible entities, an untyped one all. Every other public entry is shown as it is. */
  lemma WhatPublicEntriesShow(e: Entry, role: string, roster: Roster, idsIn: string -> seq<string>)
    requires e.channel in ["", "public", "system", "ooc"]
    ensures Project(e, role, roster, idsIn).Some?
    ensures role == "gm" || role == "admin" ==> Project(e, role, roster, idsIn) == Some(e)
    ensures role != "gm" && role != "admin" ==>
              var p := Project(e, role, roster, idsIn).value;
              var noActor := e.actorId.Some? && e.actorId.value != "" && e.actorId.value in roster &&
                             roster[e.actorId.value] == Some(false);
              var ids := if e.eventType.None? then []
                         else if e.referenced.Some? then e.referenced.value else idsIn(e.summary);
              var touched := noActor || exists id :: id in ids && id != "" && id in roster && roster[id] == Some(false);
              && (!touched ==> p == e)
              && (touched ==> p.summary == "Something happens" && p.eventType == None && p.isPrivate)
              && (p.actorName == Some("[Unknown]") <==> noActor || e.actorName == Some("[Unknown]"))
              && (!noActor ==> p.actorName == e.actorName && p.actorId == e.actorId) && (noActor ==> p.actorId == None)
              && p.referenced.Some? == e.referenced.Some?
              && (e.referenced.Some? ==> forall id ::
                    multiset(p.referenced.value)[id] ==
                    if e.eventType.Some? && id != "" && id in roster && roster[id] == Some(false) then 0
                    else multiset(e.referenced.value)[id])
  {
    if role != "gm" && role != "admin" {
      AnyHiddenMember(TargetIds(e, idsIn), roster);
      if e.referenced.Some? {
        NamedKeeps(e.referenced.value);
        forall id { RedactedCounts(e.referenced.value, TargetIds(e, idsIn), roster, id); }
      }
    }
  }

  /** Private lines are whole for "gm" and "admin" and absent for "spectator"; any other viewer sees that there is
      one. */
  lemma WhatPrivateLinesShow(e: Entry, role: string, roster: Roster, idsIn: string -> seq<string>)
    requires e.channel !in ["", "public", "system", "ooc"]
    ensures Project(e, role, roster, idsIn) ==
            if role in ["gm", "admin"] then Some(e)
            else if role == "spectator" then None
            else Some(Entry(e.ms, e.kind, e.sequenceId, e.channel, e.actorId, Some("[Unknown]"), "Something happens",
                            None, e.referenced, true))
  {
  }

  /** A player's copy of a private line keeps every id the line carries; only what can be read is replaced. */
  lemma PrivateLinesKeepTheirIds(e: Entry, role: string, roster: Roster, idsIn: string -> seq<string>)
    requires !Privileged(role) && !PublicChannel(e.channel) && role != "spectator"
    ensures var p := Project(e, role, roster, idsIn).value;
            && p.actorId == e.actorId && p.referenced == e.referenced
            && p.actorName == Some(UNKNOWN) && p.summary == PRIVATE_PLACEHOLDER && p.eventType == None
  {
  }

  /** For every entry and unprivileged role: what is shown carries no hidden id if and only if the entry
      carried none, or is public and has a type, or is public and names hidden entities as its actor only. */
  lemma NoHiddenIdExactlyWhen(e: Entry, role: string, roster: Roster, idsIn: string -> seq<string>)
    requires !Privileged(role) && Project(e, role, roster, idsIn).Some?
    ensures var p := Project(e, role, roster, idsIn).value;
            !HiddenActor(p, roster) && !ReferencesHidden(p, roster) <==>
              if PublicChannel(e.channel) then e.eventType.Some? || !ReferencesHidden(e, roster)
              else !HiddenActor(e, roster) && !ReferencesHidden(e, roster)
  {
    if PublicChannel(e.channel) {
      HiddenEntitiesStayHidden(e, role, roster, idsIn);
    } else {
      PrivateLinesKeepTheirIds(e, role, roster, idsIn);
    }
  }

  /** An engine event without a type, as its formatter hands it on: its hidden actor's id reaches a player. */
  lemma UntypedEventShowsItsActor(id: string, roster: Roster, idsIn: string -> seq<string>)
    requires HiddenEntity(id, roster)
    ensures var e := Entry(0, Engine, "e_1", "public", Some(id), None, "", None, Some([id]), false);
            var p := Project(e, "player", roster, idsIn);
            p.Some? && p.value.actorId == None && p.value.referenced == Some([id])
  {
    var e := Entry(0, Engine, "e_1", "public", Some(id), None, "", None, Some([id]), false);
    HiddenEntitiesStayHidden(e, "player", roster, idsIn);
    assert Redacted([id], [], roster) == [id];
  }

  /** Only the role "spectator" drops private lines; every other unprivileged role, known or not, sees
      what a player sees, and so what a spectator sees if and only if the line is public. */
  lemma UnknownRoleIsPlayer(e: Entry, role: string, roster: Roster, idsIn: string -> seq<string>)
    requires !Privileged(role) && role != "spectator"
    ensures Project(e, role, roster, idsIn) == Project(e, "player", roster, idsIn)
    ensures Project(e, role, roster, idsIn) == Project(e, "spectator", roster, idsIn) <==> PublicChannel(e.channel)
    ensures !PublicChannel(e.channel) ==> Project(e, "spectator", roster, idsIn) == None
  {
  }

  // ---------------------------------------------------------------- whole feeds

  function OnlyPublic(entries: seq<Entry>): seq<Entry> {
    if entries == [] then []
    else if PublicChannel(entries[0].channel) then [entries[0]] + OnlyPublic(entries[1..])
    else OnlyPublic(entries[1..])
  }

  /** The spectator feed is the player feed without the private-channel entries, in the same order. */
  lemma {:induction false} SpectatorIsPublicPlayer(entries: seq<Entry>, roster: Roster, idsIn: string -> seq<string>)
    ensures ProjectAll(entries, "spectator", roster, idsIn) == OnlyPublic(ProjectAll(entries, "player", roster, idsIn))
  {
    if entries != [] {
      ProjectionIsStable(entries[0], "player", roster, idsIn);
      SpectatorIsPublicPlayer(entries[1..], roster, idsIn);
    }
  }

  lemma {:induction false} ProjectTwice(entries: seq<Entry>, role: string, roster: Roster, idsIn: string -> seq<string>)
    ensures var once := ProjectAll(entries, role, roster, idsIn);
            ProjectAll(once, role, roster, idsIn) == once
  {
    if entries != [] {
      ProjectionIsStable(entries[0], role, roster, idsIn);
      ProjectTwice(entries[1..], role, roster, idsIn);
    }
  }

  lemma {:induction false} ProjectAppend(a: seq<Entry>, b: seq<Entry>, role: string, roster: Roster,
                                         idsIn: string -> seq<string>)
    ensures ProjectAll(a + b, role, roster, idsIn) ==
            ProjectAll(a, role, roster, idsIn) + ProjectAll(b, role, roster, idsIn)
  {
    if a == [] {
      assert a + b == b;
    } else {
      assert (a + b)[1..] == a[1..] + b;
      ProjectAppend(a[1..], b, role, roster, idsIn);
    }
  }

  ghost predicate NotBefore(s: seq<Entry>, e: Entry) {
    s == [] || (!SortLess(s[0], e) && NotBefore(s[1..], e))
  }

  /** Sorted for the sort's own order, ties allowed. */
  ghost predicate Ordered(s: seq<Entry>) {
    s == [] || (NotBefore(s[1..], s[0]) && Ordered(s[1..]))
  }

  lemma SortLessOrder(a: Entry, b: Entry, c: Entry)
    ensures !(SortLess(a, b) && SortLess(b, a)) && !SortLess(a, a)
    ensures SortLess(a, b) && SortLess(b, c) ==> SortLess(a, c)
    ensures SortLess(a, b) && !SortLess(c, b) ==> SortLess(a, c)
  {
    TextOrder(a.sequenceId, b.sequenceId);
    TextOrder(a.sequenceId, a.sequenceId);
    TextOrder(c.sequenceId, b.sequenceId);
    if TextLess(a.sequenceId, b.sequenceId) && TextLess(b.sequenceId, c.sequenceId) {
      TextTransitive(a.sequenceId, b.sequenceId, c.sequenceId);
    }
  }

  lemma {:induction false} NotBeforeLower(s: seq<Entry>, low: Entry, high: Entry)
    requires NotBefore(s, high) && !SortLess(high, low)
    ensures NotBefore(s, low)
  {
    if s != [] {
      SortLessOrder(s[0], low, high);
      NotBeforeLower(s[1..], low, high);
    }
  }

  lemma {:induction false} InsertOrdered(e: Entry, s: seq<Entry>)
    requires Ordered(s)
    ensures Ordered(Insert(e, s))
    ensures forall low :: NotBefore(s, low) && !SortLess(e, low) ==> NotBefore(Insert(e, s), low)
  {
    if s != [] {
      SortLessOrder(e, s[0], e);
      if SortLess(e, s[0]) {
        NotBeforeLower(s[1..], e, s[0]);
        assert ([e] + s)[1..] == s;
      } else {
        InsertOrdered(e, s[1..]);
      }
    }
  }

  lemma {:induction false} SortOrdered(s: seq<Entry>)
    ensures Ordered(Sort(s))
  {
    if s != [] {
      SortOrdered(s[..|s| - 1]);
      InsertOrdered(s[|s| - 1], Sort(s[..|s| - 1]));
    }
  }

  ghost predicate SamePlace(a: Entry, b: Entry) {
    a.ms == b.ms && a.kind == b.kind && a.sequenceId == b.sequenceId
  }

  /** An entry that sorts before all of a list is inserted in front, whatever has been left out. */
  lemma {:induction false} InsertInFront(e: Entry, s: seq<Entry>, role: string, roster: Roster,
                                         idsIn: string -> seq<string>, p: Entry)
    requires SamePlace(e, p) && forall i :: 0 <= i < |s| ==> SortLess(e, s[i])
    ensures Insert(p, ProjectAll(s, role, roster, idsIn)) == [p] + ProjectAll(s, role, roster, idsIn)
  {
    if s != [] {
      ProjectionIsStable(s[0], role, roster, idsIn);
      if Project(s[0], role, roster, idsIn).None? {
        InsertInFront(e, s[1..], role, roster, idsIn, p);
      }
    }
  }

  lemma {:induction false} BeforeAll(e: Entry, s: seq<Entry>, head: Entry)
    requires SortLess(e, head) && NotBefore(s, head)
    ensures forall i :: 0 <= i < |s| ==> SortLess(e, s[i])
  {
    if s != [] {
      SortLessOrder(e, head, s[0]);
      BeforeAll(e, s[1..], head);
    }
  }

  lemma {:induction false} ProjectInsert(e: Entry, s: seq<Entry>, role: string, roster: Roster,
                                         idsIn: string -> seq<string>)
    requires Ordered(s)
    ensures ProjectAll(Insert(e, s), role, roster, idsIn) ==
            match Project(e, role, roster, idsIn)
            case None => ProjectAll(s, role, roster, idsIn)
            case Some(p) => Insert(p, ProjectAll(s, role, roster, idsIn))
  {
    ProjectionIsStable(e, role, roster, idsIn);
    if s != [] {
      ProjectionIsStable(s[0], role, roster, idsIn);
      if SortLess(e, s[0]) {
        BeforeAll(e, s[1..], s[0]);
        assert ([e] + s)[1..] == s;
        if Project(e, role, roster, idsIn).Some? {
          InsertInFront(e, s, role, roster, idsIn, Project(e, role, roster, idsIn).value);
        }
      } else {
        ProjectInsert(e, s[1..], role, roster, idsIn);
        assert ([s[0]] + Insert(e, s[1..]))[1..] == Insert(e, s[1..]);
      }
    }
  }

  /** Projecting commutes with the stable sort, so a role's feed may be projected before or after
      the two streams are merged. */
  lemma {:induction false} ProjectSort(s: seq<Entry>, role: string, roster: Roster, idsIn: string -> seq<string>)
    ensures ProjectAll(Sort(s), role, roster, idsIn) == Sort(ProjectAll(s, role, roster, idsIn))
  {
    hide Project, Insert, Ordered;
    if s != [] {
      var front, last := s[..|s| - 1], s[|s| - 1];
      assert s == front + [last];
      ProjectSort(front, role, roster, idsIn);
      SortOrdered(front);
      ProjectInsert(last, Sort(front), role, roster, idsIn);
      ProjectAppend(front, [last], role, roster, idsIn);
      var p := Project(last, role, roster, idsIn);
      assert ProjectAll([last], role, roster, idsIn) == if p.Some? then [p.value] else [];
      if p.Some? {
        assert (ProjectAll(front, role, roster, idsIn) + [p.value])[..|ProjectAll(front, role, roster, idsIn)|] ==
               ProjectAll(front, role, roster, idsIn);
      } else {
        assert ProjectAll(front, role, roster, idsIn) + [] == ProjectAll(front, role, roster, idsIn);
      }
    }
  }

  lemma ProjectMerge(engine: seq<Entry>, narrative: seq<Entry>, role: string, roster: Roster,
                     idsIn: string -> seq<string>)
    ensures ProjectAll(MergeTimeline(engine, narrative), role, roster, idsIn) ==
            MergeTimeline(ProjectAll(engine, role, roster, idsIn), ProjectAll(narrative, role, roster, idsIn))
  {
    ProjectSort(engine + narrative, role, roster, idsIn);
    ProjectAppend(engine, narrative, role, roster, idsIn);
  }

  // ---------------------------------------------------------------- the route's feed

  lemma {:induction false} ProjectIncreasing(s: seq<Entry>, role: string, roster: Roster, idsIn: string -> seq<string>)
    requires Increasing(s) && AllFormatted(s)
    ensures Increasing(ProjectAll(s, role, roster, idsIn)) && AllFormatted(ProjectAll(s, role, roster, idsIn))
    ensures forall m :: AllAfter(s, m) ==> AllAfter(ProjectAll(s, role, roster, idsIn), m)
  {
    if s != [] {
      ProjectionIsStable(s[0], role, roster, idsIn);
      ProjectIncreasing(s[1..], role, roster, idsIn);
    }
  }

  lemma {:induction false} FormattedIsNamed(s: seq<Entry>)
    requires AllFormatted(s)
    ensures AllNamed(s)
  {
    if s != [] { FormattedIsNamed(s[1..]); }
  }

  /** What the route pages through satisfies everything the paging theorems ask of a feed. */
  lemma FeedIsGood(engine: seq<Entry>, narrative: seq<Entry>, role: string, roster: Roster,
                   idsIn: string -> seq<string>)
    requires AllFormatted(engine + narrative) && DistinctMarks(engine + narrative)
    ensures var feed := ProjectAll(MergeTimeline(engine, narrative), role, roster, idsIn);
            Increasing(feed) && AllNamed(feed)
  {
    SortIsIncreasing(engine + narrative);
    ProjectIncreasing(Sort(engine + narrative), role, roster, idsIn);
    FormattedIsNamed(ProjectAll(Sort(engine + narrative), role, roster, idsIn));
  }

  lemma {:induction false} OrderedAt(s: seq<Entry>, i: nat, j: nat)
    requires Ordered(s) && i < j < |s|
    ensures !SortLess(s[j], s[i])
  {
    if i == 0 {
      NotBeforeAt(s[1..], s[0], j - 1);
    } else {
      OrderedAt(s[1..], i - 1, j - 1);
    }
  }

  lemma {:induction false} NotBeforeAt(s: seq<Entry>, low: Entry, i: nat)
    requires NotBefore(s, low) && i < |s|
    ensures !SortLess(s[i], low)
  {
    if i > 0 { NotBeforeAt(s[1..], low, i - 1); }
  }

  /** In a sorted list an entry behind a later one's position is not the one that follows it: the two would
      stand at one place. */
  lemma OrderedHasNoEcho(s: seq<Entry>)
    requires Ordered(s)
    ensures NoEcho(s)
  {
    forall i, c | 0 <= i < c < |s| && MarkLess(MarkOf(s[c - 1]), MarkOf(s[i])) ensures s[i] != s[c] {
      MarkOrder(MarkOf(s[c - 1]), MarkOf(s[i]), MarkOf(s[i]));
      OrderedAt(s, i, c - 1);
      OrderedAt(s, c - 1, c);
    }
  }

  /** For every two streams, role and page size: following the cursor from the start delivers the merged
      projected feed, each entry once and in order, if and only if all its entries lie behind the starting
      position and it falls apart cleanly at every page's end. For streams as the formatters number them, with
      distinct places, that is if and only if no time shown is negative. */
  lemma TimelineIsDeliveredExactlyWhen(engine: seq<Entry>, narrative: seq<Entry>, role: string, roster: Roster,
                                       idsIn: string -> seq<string>, limit: nat, n: nat)
    requires 1 <= limit <= MAX_LIMIT
    requires n > |ProjectAll(MergeTimeline(engine, narrative), role, roster, idsIn)|
    ensures var feed := ProjectAll(MergeTimeline(engine, narrative), role, roster, idsIn);
            Delivered(feed, limit, n) <==>
              (forall i :: 0 <= i < |feed| ==> AfterBeginning(feed[i])) && CutsAtMultiples(feed, 0, limit)
    ensures var feed := ProjectAll(MergeTimeline(engine, narrative), role, roster, idsIn);
            AllFormatted(engine + narrative) && DistinctMarks(engine + narrative) ==>
              (Delivered(feed, limit, n) <==> forall i :: 0 <= i < |feed| ==> feed[i].ms >= 0)
  {
    var feed := ProjectAll(MergeTimeline(engine, narrative), role, roster, idsIn);
    ProjectSort(engine + narrative, role, roster, idsIn);
    SortOrdered(ProjectAll(engine + narrative, role, roster, idsIn));
    OrderedHasNoEcho(feed);
    DeliveredExactlyWhen(feed, limit, n);
    if AllFormatted(engine + narrative) && DistinctMarks(engine + narrative) {
      FeedIsGood(engine, narrative, role, roster, idsIn);
      PagesAreTheFeed(feed, limit, n);
    }
  }
}
