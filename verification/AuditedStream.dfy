/** The audited narrative stream (python/vtt_orchestrator/server.py): model text is held back until
    the sentence it belongs to has passed the auditor. The auditor is an arbitrary predicate. */
module AuditedStream {
  import opened Text

  /** What the model side sends: the degradation sentinel, something to skip, the end mark, or text. */
  datatype Chunk = Degraded(reason: string) | Skipped | DoneMark | Token(text: string)

  /** What the client gets. `Text` frames carry audited model text, `Halt` the corrective message. */
  datatype Frame =
    | Notice(reason: string)
    | Text(text: string, degraded: bool)
    | Halt(corrective: string, because: Option<string>)
    | Done(degraded: bool)

  /** The auditor's answer for one piece of text: the corrective constraints it demands, none when it passes. */
  type Auditor = string -> seq<string>

  // ---------------------------------------------------------------- sentences

  predicate EndsSentence(c: char) {
    c == '.' || c == '!' || c == '?' || c == '\U{2026}'
  }

  /** Where the first match of the sentence pattern ends: behind a mark and one white-space character,
      or behind a mark that is the last character. */
  function SentenceEnd(s: string): Option<nat> {
    if s == "" then None
    else if EndsSentence(s[0]) && |s| == 1 then Some(1)
    else if EndsSentence(s[0]) && IsPythonSpace(s[1]) then Some(2)
    else match SentenceEnd(s[1..])
         case None => None
         case Some(n) => Some(n + 1)
  }

  lemma {:induction false} SentenceEndInside(s: string)
    ensures SentenceEnd(s).Some? ==> 1 <= SentenceEnd(s).value <= |s|
  {
    if s != "" { SentenceEndInside(s[1..]); }
  }

  /** A mark that ends a sentence, by position: white space follows it, or nothing. */
  ghost predicate EndsAt(s: string, p: nat) {
    p < |s| && s[p] in ".!?\U{2026}" && (p + 1 == |s| || IsPythonSpace(s[p + 1]))
  }

  ghost predicate FirstEnd(s: string, p: nat) {
    EndsAt(s, p) && forall q: nat :: q < p ==> !EndsAt(s, q)
  }

  /** How far the match at a mark reaches: over the one character of white space behind it. */
  ghost function MatchEnd(s: string, p: nat): nat {
    if p + 1 == |s| then p + 1 else p + 2
  }

  /** One sentence: its first ending mark is the one it ends with. */
  ghost predicate Sentence(s: string) {
    exists p: nat :: FirstEnd(s, p) && MatchEnd(s, p) == |s|
  }

  /** No sentence ends in the text. */
  ghost predicate Unended(s: string) {
    forall p: nat :: !EndsAt(s, p)
  }

  lemma EndsLater(s: string, p: nat)
    requires s != ""
    ensures EndsAt(s[1..], p) <==> EndsAt(s, p + 1)
  {
  }

  lemma {:induction false} EndFound(s: string) returns (p: nat)
    ensures SentenceEnd(s).None? ==> Unended(s)
    ensures SentenceEnd(s).Some? ==> FirstEnd(s, p) && SentenceEnd(s).value == MatchEnd(s, p) <= |s|
  {
    p := 0;
    if s != "" && !EndsAt(s, 0) {
      var q := EndFound(s[1..]);
      forall k: nat ensures EndsAt(s, k) <==> k > 0 && EndsAt(s[1..], k - 1) {
        if k > 0 { EndsLater(s, k - 1); }
      }
      p := q + 1;
    }
  }

  /** The search finds the leftmost ending mark, and nothing only if there is none. */
  lemma SentenceEndExactly(s: string, n: nat)
    ensures SentenceEnd(s) == Some(n) <==> exists p: nat :: FirstEnd(s, p) && MatchEnd(s, p) == n
    ensures SentenceEnd(s) == None <==> forall p: nat :: !EndsAt(s, p)
  {
    var p := EndFound(s);
    if q: nat :| FirstEnd(s, q) && MatchEnd(s, q) == n {
      assert SentenceEnd(s).Some? by { assert EndsAt(s, q); }
      assert q == p by { assert EndsAt(s, p) && EndsAt(s, q); }
    }
  }

  lemma EndsInFront(s: string, n: nat, p: nat)
    requires p + 1 < n <= |s|
    ensures EndsAt(s[..n], p) <==> EndsAt(s, p)
  {
  }

  /** What is cut off at the end found is one sentence. */
  lemma CutIsSentence(s: string)
    requires SentenceEnd(s).Some?
    ensures SentenceEnd(s).value <= |s| && Sentence(s[..SentenceEnd(s).value])
  {
    hide EndsAt, SentenceEnd;
    var p := EndFound(s);
    var t := s[..SentenceEnd(s).value];
    forall q: nat | q < p ensures !EndsAt(t, q) {
      EndsInFront(s, |t|, q);
    }
    if p + 1 == |s| {
      assert t == s;
    } else {
      EndsInFront(s, |t|, p);
    }
    assert FirstEnd(t, p);
  }

  /** The corrective constraints with "; " between them. */
  function Joined(failures: seq<string>): string {
    if failures == [] then ""
    else if |failures| == 1 then failures[0]
    else failures[0] + "; " + Joined(failures[1..])
  }

  lemma {:induction false} JoinedAppend(a: seq<string>, b: seq<string>)
    requires a != [] && b != []
    ensures Joined(a + b) == Joined(a) + "; " + Joined(b)
    ensures Joined([a[0]]) == a[0]
  {
    if |a| == 1 {
      assert (a + b)[1..] == b;
    } else {
      assert (a + b)[1..] == a[1..] + b;
      JoinedAppend(a[1..], b);
      assert Joined(a + b) == a[0] + "; " + (Joined(a[1..]) + "; " + Joined(b));
      assert Joined(a) == a[0] + "; " + Joined(a[1..]);
    }
  }

  predicate AllBlank(s: string) {
    Strip(s) == ""
  }

  // ---------------------------------------------------------------- the stream as a function

  /** State of the generator between chunks: held-back text and why it is degraded, if it is. */
  datatype Held = Held(pending: string, reason: Option<string>)

  function HaltFrames(failures: seq<string>, reason: Option<string>): seq<Frame> {
    [Halt(Joined(failures), reason), Done(reason.Some?)]
  }

  /** Releases complete sentences. Returns the frames, the text still held, and whether the stream was halted. */
  ghost function Release(h: Held, audit: Auditor): (seq<Frame>, Held, bool)
    decreases |h.pending|
  {
    SentenceEndInside(h.pending);
    match SentenceEnd(h.pending)
    case None => ([], h, false)
    case Some(n) =>
      var failures := audit(h.pending[..n]);
      if failures != [] then (HaltFrames(failures, h.reason), h, true)
      else
        var (frames, left, halted) := Release(h.(pending := h.pending[n..]), audit);
        ([Text(h.pending[..n], h.reason.Some?)] + frames, left, halted)
  }

  /** The unterminated rest and the end of the stream. */
  ghost function Finish(h: Held, audit: Auditor): seq<Frame> {
    if AllBlank(h.pending) then [Done(h.reason.Some?)]
    else if audit(h.pending) != [] then HaltFrames(audit(h.pending), h.reason)
    else [Text(h.pending, h.reason.Some?), Done(h.reason.Some?)]
  }

  ghost function Stream(chunks: seq<Chunk>, h: Held, audit: Auditor): seq<Frame> {
    if chunks == [] then Finish(h, audit)
    else match chunks[0]
         case Degraded(reason) => [Notice(reason)] + Stream(chunks[1..], h.(reason := Some(reason)), audit)
         case Skipped => Stream(chunks[1..], h, audit)
         case DoneMark => Finish(h, audit)
         case Token(text) =>
           var (frames, left, halted) := Release(h.(pending := h.pending + text), audit);
           if halted then frames else frames + Stream(chunks[1..], left, audit)
  }

  const Fresh := Held("", None)

  /** The source's generator. */
  method Audited(chunks: seq<Chunk>, audit: Auditor) returns (frames: seq<Frame>)
    ensures frames == Stream(chunks, Fresh, audit)
  {
    frames := [];
    var pending, reason := "", None;
    ghost var whole := Stream(chunks, Fresh, audit);
    var i := 0;
    assert chunks[0..] == chunks;
    while i < |chunks|
      invariant i <= |chunks| && whole == frames + Stream(chunks[i..], Held(pending, reason), audit)
    {
      var chunk := chunks[i];
      assert chunks[i..][1..] == chunks[i + 1..];
      i := i + 1;
      match chunk {
        case Degraded(why) =>
          reason := Some(why);
          frames := frames + [Notice(why)];
        case Skipped =>
        case DoneMark =>
          var last := CloseStream(Held(pending, reason), audit);
          return frames + last;
        case Token(text) =>
          var out, left, halted := ReleaseSentences(Held(pending + text, reason), audit);
          frames := frames + out;
          if halted { return; }
          pending := left;
      }
    }
    var last := CloseStream(Held(pending, reason), audit);
    frames := frames + last;
  }

  /** One sentence that passes goes in front of what is released behind it. */
  lemma ReleaseOne(h: Held, audit: Auditor, n: nat, frames: seq<Frame>)
    requires n <= |h.pending| && SentenceEnd(h.pending) == Some(n) && audit(h.pending[..n]) == []
    ensures var (now, left, halted) := Release(h, audit);
            var (later, left', halted') := Release(h.(pending := h.pending[n..]), audit);
            && frames + now == frames + [Text(h.pending[..n], h.reason.Some?)] + later
            && left == left' && halted == halted'
  {
    var (later, _, _) := Release(h.(pending := h.pending[n..]), audit);
    var frame := Text(h.pending[..n], h.reason.Some?);
    assert frames + ([frame] + later) == frames + [frame] + later;
  }

  lemma ReleaseEnds(h: Held, audit: Auditor)
    ensures SentenceEnd(h.pending).None? ==> Release(h, audit) == ([], h, false)
    ensures SentenceEnd(h.pending).Some? ==>
              && 0 < SentenceEnd(h.pending).value <= |h.pending|
              && var failures := audit(h.pending[..SentenceEnd(h.pending).value]);
                 failures != [] ==> Release(h, audit) == (HaltFrames(failures, h.reason), h, true)
  {
    SentenceEndInside(h.pending);
  }

  /** The inner loop over complete sentences. */
  method ReleaseSentences(h: Held, audit: Auditor) returns (frames: seq<Frame>, pending: string, halted: bool)
    ensures Release(h, audit) == (frames, h.(pending := pending), halted)
  {
    hide Release, SentenceEnd, HaltFrames;
    frames, pending := [], h.pending;
    ghost var (all, left, stop) := Release(h, audit);
    while true
      invariant var (f, l, s) := Release(h.(pending := pending), audit);
                all == frames + f && left == l && stop == s
      decreases |pending|
    {
      ghost var now := h.(pending := pending);
      ReleaseEnds(now, audit);
      var end := SentenceEnd(pending);
      if end.None? {
        assert frames + [] == frames;
        return frames, pending, false;
      }
      var sentence := pending[..end.value];
      var failures := audit(sentence);
      if failures != [] {
        return frames + HaltFrames(failures, h.reason), pending, true;
      }
      ReleaseOne(now, audit, end.value, frames);
      frames := frames + [Text(sentence, h.reason.Some?)];
      pending := pending[end.value..];
    }
  }

  method CloseStream(h: Held, audit: Auditor) returns (frames: seq<Frame>)
    ensures frames == Finish(h, audit)
  {
    frames := [];
    if !AllBlank(h.pending) {
      var failures := audit(h.pending);
      if failures != [] {
        return HaltFrames(failures, h.reason);
      }
      frames := [Text(h.pending, h.reason.Some?)];
    }
    frames := frames + [Done(h.reason.Some?)];
  }

  // ---------------------------------------------------------------- what the client may rely on

  /** Model text in the frames. */
  function Released(frames: seq<Frame>): string {
    if frames == [] then ""
    else (if frames[0].Text? then frames[0].text else "") + Released(frames[1..])
  }

  /** Model text received up to the end mark. */
  function Received(chunks: seq<Chunk>): string {
    if chunks == [] || chunks[0].DoneMark? then ""
    else (if chunks[0].Token? then chunks[0].text else "") + Received(chunks[1..])
  }

  ghost predicate AllAudited(frames: seq<Frame>, audit: Auditor) {
    frames == [] || ((frames[0].Text? ==> audit(frames[0].text) == []) && AllAudited(frames[1..], audit))
  }

  /** Frames that end with exactly one done frame; a halt is directly followed by it. */
  ghost predicate WellEnded(frames: seq<Frame>) {
    && frames != []
    && if |frames| == 1 then frames[0].Done?
       else !frames[0].Done? && (frames[0].Halt? ==> |frames| == 2) && WellEnded(frames[1..])
  }

  ghost predicate Halted(frames: seq<Frame>) {
    frames != [] && (frames[0].Halt? || Halted(frames[1..]))
  }

  /** Once degraded, every frame says so, and a halt for the reason of the last notice. */
  ghost predicate Tagged(frames: seq<Frame>, reason: Option<string>) {
    frames == [] ||
    (match frames[0]
     case Notice(why) => Tagged(frames[1..], Some(why))
     case Text(_, d) => d == reason.Some? && Tagged(frames[1..], reason)
     case Halt(_, because) => because == reason && Tagged(frames[1..], reason)
     case Done(d) => d == reason.Some? && Tagged(frames[1..], reason))
  }

  /** Text comes sentence by sentence, but for a last piece without an end, directly before the done frame. */
  ghost predicate InSentences(frames: seq<Frame>) {
    frames == [] ||
    (InSentences(frames[1..]) &&
     (frames[0].Text? ==>
        Sentence(frames[0].text) || (Unended(frames[0].text) && |frames| == 2 && frames[1].Done?)))
  }

  /** Every corrective message is the one for this list of failures. */
  ghost predicate Corrects(frames: seq<Frame>, failures: seq<string>) {
    frames == [] || ((frames[0].Halt? ==> frames[0].corrective == Joined(failures)) && Corrects(frames[1..], failures))
  }

  lemma {:induction false} ReleasedAppend(a: seq<Frame>, b: seq<Frame>)
    ensures Released(a + b) == Released(a) + Released(b)
  {
    if a == [] {
      assert a + b == b;
    } else {
      assert (a + b)[1..] == a[1..] + b;
      ReleasedAppend(a[1..], b);
    }
  }

  /** Sentence frames: audited text only, tagged alike, no notice, no end. */
  ghost predicate OnlyText(frames: seq<Frame>, audit: Auditor, reason: Option<string>) {
    frames == [] || (frames[0].Text? && audit(frames[0].text) == [] && frames[0].degraded == reason.Some? &&
                     OnlyText(frames[1..], audit, reason))
  }

  ghost predicate AllSentences(frames: seq<Frame>) {
    frames == [] || (frames[0].Text? && Sentence(frames[0].text) && AllSentences(frames[1..]))
  }

  lemma {:induction false} SentencesThen(a: seq<Frame>, b: seq<Frame>)
    requires AllSentences(a) && InSentences(b)
    ensures InSentences(a + b)
  {
    hide Sentence, Unended;
    if a == [] {
      assert a + b == b;
    } else {
      assert (a + b)[1..] == a[1..] + b;
      SentencesThen(a[1..], b);
    }
  }

  lemma {:induction false} OnlyTextThen(a: seq<Frame>, b: seq<Frame>, audit: Auditor, reason: Option<string>)
    requires OnlyText(a, audit, reason)
    ensures AllAudited(b, audit) ==> AllAudited(a + b, audit)
    ensures WellEnded(b) ==> WellEnded(a + b)
    ensures Tagged(b, reason) ==> Tagged(a + b, reason)
    ensures Halted(a + b) <==> Halted(b)
    ensures forall f :: Corrects(b, f) ==> Corrects(a + b, f)
  {
    if a == [] {
      assert a + b == b;
    } else {
      assert (a + b)[1..] == a[1..] + b;
      OnlyTextThen(a[1..], b, audit, reason);
    }
  }

  lemma HaltEnds(failures: seq<string>, reason: Option<string>, audit: Auditor)
    ensures var f := HaltFrames(failures, reason);
            && AllAudited(f, audit) && WellEnded(f) && Tagged(f, reason) && Halted(f) && Released(f) == ""
            && Corrects(f, failures) && InSentences(f)
  {
    var f := HaltFrames(failures, reason);
    DoneEnds(reason, audit);
    assert f[1..] == [Done(reason.Some?)];
    assert "" + "" == "";
  }

  lemma DoneEnds(reason: Option<string>, audit: Auditor)
    ensures var f := [Done(reason.Some?)];
            && AllAudited(f, audit) && WellEnded(f) && Tagged(f, reason) && !Halted(f) && Released(f) == ""
            && InSentences(f) && forall failures :: Corrects(f, failures)
  {
    assert [Done(reason.Some?)][1..] == [];
    assert "" + "" == "";
  }

  /** What one round of releases gives: audited sentences that, with what is still held, are the held
      text; a halt names text that failed. */
  lemma {:induction false} ReleaseFacts(h: Held, audit: Auditor)
    returns (text: seq<Frame>, failed: string, rest: string)
    ensures var (frames, left, halted) := Release(h, audit);
            && left.reason == h.reason
            && OnlyText(text, audit, h.reason) && AllSentences(text)
            && (!halted ==> frames == text && h.pending == Released(text) + left.pending && Unended(left.pending))
            && (halted ==> Sentence(failed) && audit(failed) != [] &&
                           frames == text + HaltFrames(audit(failed), h.reason) &&
                           h.pending == Released(text) + (failed + rest))
    decreases |h.pending|
  {
    hide SentenceEnd, Sentence, Unended;
    SentenceEndInside(h.pending);
    var _ := EndFound(h.pending);
    match SentenceEnd(h.pending)
    case None =>
      text, failed, rest := [], "", "";
      Units(h.pending, []);
    case Some(n) =>
      var sentence := h.pending[..n];
      CutIsSentence(h.pending);
      assert h.pending == sentence + h.pending[n..];
      if audit(sentence) != [] {
        text, failed, rest := [], sentence, h.pending[n..];
        Units(sentence + rest, HaltFrames(audit(failed), h.reason));
      } else {
        var frame := Text(sentence, h.reason.Some?);
        var later;
        later, failed, rest := ReleaseFacts(h.(pending := h.pending[n..]), audit);
        OneMore(frame, later, audit);
        text := [frame] + later;
        var (_, left, _) := Release(h.(pending := h.pending[n..]), audit);
        Grouped(sentence, Released(later), left.pending);
        Grouped(sentence, Released(later), failed + rest);
        assert [frame] + (later + HaltFrames(audit(failed), h.reason)) ==
               [frame] + later + HaltFrames(audit(failed), h.reason);
      }
  }

  lemma Units(b: string, f: seq<Frame>)
    ensures "" + b == b && [] + f == f
  {
  }

  lemma Grouped(a: string, b: string, c: string)
    ensures a + (b + c) == (a + b) + c
  {
  }

  lemma OneMore(frame: Frame, later: seq<Frame>, audit: Auditor)
    requires frame.Text?
    ensures Released([frame] + later) == frame.text + Released(later)
    ensures forall reason: Option<string> ::
              audit(frame.text) == [] && frame.degraded == reason.Some? && OnlyText(later, audit, reason) ==>
                OnlyText([frame] + later, audit, reason)
    ensures Sentence(frame.text) && AllSentences(later) ==> AllSentences([frame] + later)
  {
    assert ([frame] + later)[1..] == later;
  }

  /** Everything a client may rely on, for a stream that starts with some text already held. */
  ghost predicate Sound(frames: seq<Frame>, text: string, rest: string, failed: string, audit: Auditor,
                        reason: Option<string>) {
    && AllAudited(frames, audit) && WellEnded(frames) && Tagged(frames, reason) && InSentences(frames)
    && text == Released(frames) + rest
    && (if Halted(frames) then
          && audit(failed) != [] && Corrects(frames, audit(failed))
          && failed <= rest && (Sentence(failed) || (Unended(failed) && failed == rest))
        else AllBlank(rest))
  }

  lemma FinishIsSound(h: Held, audit: Auditor) returns (rest: string, failed: string)
    requires Unended(h.pending)
    ensures Sound(Finish(h, audit), h.pending, rest, failed, audit, h.reason)
  {
    hide Sentence, Unended;
    rest, failed := h.pending, "";
    Units(h.pending, []);
    DoneEnds(h.reason, audit);
    if !AllBlank(h.pending) {
      if audit(h.pending) != [] {
        failed := h.pending;
        HaltEnds(audit(failed), h.reason, audit);
      } else {
        rest := "";
        var frame := Text(h.pending, h.reason.Some?);
        assert [frame][1..] == [] && [frame] + [Done(h.reason.Some?)] == Finish(h, audit);
        assert Finish(h, audit)[1..] == [Done(h.reason.Some?)];
        assert Strip("") == "" && h.pending + "" == h.pending;
        OnlyTextThen([frame], [Done(h.reason.Some?)], audit, h.reason);
        ReleasedAppend([frame], [Done(h.reason.Some?)]);
      }
    }
  }

  /** Audited sentences in front of a sound stream. */
  lemma PrependText(text: seq<Frame>, frames: seq<Frame>, held: string, rest: string, failed: string, audit: Auditor,
                    reason: Option<string>)
    requires OnlyText(text, audit, reason) && AllSentences(text) && Sound(frames, held, rest, failed, audit, reason)
    ensures Sound(text + frames, Released(text) + held, rest, failed, audit, reason)
  {
    hide Sentence, Unended;
    OnlyTextThen(text, frames, audit, reason);
    SentencesThen(text, frames);
    ReleasedAppend(text, frames);
    Grouped(Released(text), Released(frames), rest);
  }

  lemma HaltIsSound(text: seq<Frame>, failed: string, more: string, reason: Option<string>, audit: Auditor)
    requires OnlyText(text, audit, reason) && AllSentences(text) && audit(failed) != [] && Sentence(failed)
    ensures Sound(text + HaltFrames(audit(failed), reason), Released(text) + (failed + more), failed + more, failed,
                  audit, reason)
  {
    hide Sentence, Unended;
    var f := HaltFrames(audit(failed), reason);
    HaltEnds(audit(failed), reason, audit);
    Units(failed + more, []);
    PrependText(text, f, failed + more, failed + more, failed, audit, reason);
  }

  lemma NoticeFirst(why: string, frames: seq<Frame>, text: string, rest: string, failed: string, audit: Auditor,
                    reason: Option<string>)
    requires Sound(frames, text, rest, failed, audit, Some(why))
    ensures Sound([Notice(why)] + frames, text, rest, failed, audit, reason)
  {
    assert ([Notice(why)] + frames)[1..] == frames;
    Units(Released(frames), []);
  }

  /** For any model output, however it is cut into chunks, and any auditor: every released piece passed
      the audit and is one sentence, or the unended rest directly before the end; the released text is a prefix of
      the text received; a piece that failed was one sentence or the whole unended rest, and nothing but the
      corrective message for its failures and one done frame follows it; the stream ends with its only done frame;
      frames are tagged degraded, and for what reason, from the last notice on; and if nothing failed, only white
      space is held back. */
  lemma {:induction false} StreamIsSound(chunks: seq<Chunk>, h: Held, audit: Auditor)
    returns (rest: string, failed: string)
    requires Unended(h.pending)
    ensures Sound(Stream(chunks, h, audit), h.pending + Received(chunks), rest, failed, audit, h.reason)
    decreases |chunks|, 0
  {
    hide Sentence, Unended, Sound;
    assert h.pending + "" == h.pending;
    if chunks == [] {
      rest, failed := FinishIsSound(h, audit);
    } else {
      match chunks[0]
      case Degraded(why) =>
        rest, failed := StreamIsSound(chunks[1..], h.(reason := Some(why)), audit);
        Units(Received(chunks[1..]), []);
        NoticeFirst(why, Stream(chunks[1..], h.(reason := Some(why)), audit), h.pending + Received(chunks), rest,
                    failed, audit, h.reason);
      case Skipped =>
        Units(Received(chunks[1..]), []);
        rest, failed := StreamIsSound(chunks[1..], h, audit);
      case DoneMark =>
        rest, failed := FinishIsSound(h, audit);
      case Token(text) =>
        Grouped(h.pending, text, Received(chunks[1..]));
        rest, failed := TokenIsSound(chunks[1..], h.(pending := h.pending + text), audit);
    }
  }

  /** One more piece of model text: sentences, and then a halt or the rest of the stream. */
  lemma {:induction false} TokenIsSound(chunks: seq<Chunk>, h: Held, audit: Auditor)
    returns (rest: string, failed: string)
    ensures var (frames, left, halted) := Release(h, audit);
            Sound(if halted then frames else frames + Stream(chunks, left, audit),
                  h.pending + Received(chunks), rest, failed, audit, h.reason)
    decreases |chunks|, 1
  {
    hide Sentence, Unended, Sound;
    var (frames, left, halted) := Release(h, audit);
    var sentences, bad, more := ReleaseFacts(h, audit);
    if halted {
      failed := bad;
      HaltIsSound(sentences, bad, more + Received(chunks), h.reason, audit);
      rest := bad + (more + Received(chunks));
      Grouped(bad, more, Received(chunks));
      Grouped(Released(sentences), bad + more, Received(chunks));
    } else {
      rest, failed := StreamIsSound(chunks, left, audit);
      PrependText(sentences, Stream(chunks, left, audit), left.pending + Received(chunks), rest, failed, audit,
                  h.reason);
      Grouped(Released(sentences), left.pending, Received(chunks));
    }
  }

  /** The reasons the notices give, and those the model side gave up to its end mark. */
  function Notices(frames: seq<Frame>): seq<string> {
    if frames == [] then []
    else (if frames[0].Notice? then [frames[0].reason] else []) + Notices(frames[1..])
  }

  function Reasons(chunks: seq<Chunk>): seq<string> {
    if chunks == [] || chunks[0].DoneMark? then []
    else (if chunks[0].Degraded? then [chunks[0].reason] else []) + Reasons(chunks[1..])
  }

  lemma {:induction false} TextHasNoNotice(a: seq<Frame>, b: seq<Frame>, audit: Auditor, reason: Option<string>)
    requires OnlyText(a, audit, reason)
    ensures Notices(a + b) == Notices(b)
  {
    if a == [] {
      assert a + b == b;
    } else {
      assert (a + b)[1..] == a[1..] + b;
      TextHasNoNotice(a[1..], b, audit, reason);
    }
  }

  lemma NoNoticeAtTheEnd(failures: seq<string>, reason: Option<string>, text: string, degraded: bool)
    ensures Notices(HaltFrames(failures, reason)) == Notices([Done(degraded)]) == []
    ensures Notices([Text(text, degraded), Done(degraded)]) == []
  {
    assert HaltFrames(failures, reason)[1..] == [Done(reason.Some?)];
    assert [Text(text, degraded), Done(degraded)][1..] == [Done(degraded)];
    assert [Done(reason.Some?)][1..] == [] && [Done(degraded)][1..] == [];
  }

  /** Each degradation is told to the client, in order, as long as nothing halts the stream. */
  lemma {:induction false} DegradationIsTold(chunks: seq<Chunk>, h: Held, audit: Auditor)
    ensures Notices(Stream(chunks, h, audit)) <= Reasons(chunks)
    ensures !Halted(Stream(chunks, h, audit)) ==> Notices(Stream(chunks, h, audit)) == Reasons(chunks)
    decreases |chunks|
  {
    NoNoticeAtTheEnd(audit(h.pending), h.reason, h.pending, h.reason.Some?);
    if chunks != [] {
      match chunks[0]
      case Degraded(why) =>
        var h' := h.(reason := Some(why));
        assert ([Notice(why)] + Stream(chunks[1..], h', audit))[1..] == Stream(chunks[1..], h', audit);
        DegradationIsTold(chunks[1..], h', audit);
      case Skipped => DegradationIsTold(chunks[1..], h, audit);
      case DoneMark =>
      case Token(text) =>
        var held := h.(pending := h.pending + text);
        var (frames, left, halted) := Release(held, audit);
        var sentences, bad, more := ReleaseFacts(held, audit);
        var tail := if halted then HaltFrames(audit(bad), h.reason) else Stream(chunks[1..], left, audit);
        TextHasNoNotice(sentences, tail, audit, h.reason);
        OnlyTextThen(sentences, tail, audit, h.reason);
        if halted {
          NoNoticeAtTheEnd(audit(bad), h.reason, "", false);
          HaltEnds(audit(bad), h.reason, audit);
        } else {
          DegradationIsTold(chunks[1..], left, audit);
        }
    }
  }

  lemma {:induction false} BlankTail(s: string, blank: string)
    requires AllBlank(blank)
    ensures StripRight(s + blank) == StripRight(s)
    decreases |blank|
  {
    if blank == "" {
      assert s + blank == s;
    } else {
      BlankParts(blank);
      assert (s + blank)[..|s + blank| - 1] == s + blank[..|blank| - 1];
      BlankTail(s, blank[..|blank| - 1]);
    }
  }

  lemma {:induction false} StripLeftAppend(s: string, c: char)
    ensures StripLeft(s + [c]) ==
            if StripLeft(s) == "" then (if IsPythonSpace(c) then "" else [c]) else StripLeft(s) + [c]
  {
    if s == "" {
      assert s + [c] == [c] && [c][1..] == "";
    } else {
      assert (s + [c])[1..] == s[1..] + [c];
      StripLeftAppend(s[1..], c);
    }
  }

  lemma {:induction false} StripRightBlank(s: string)
    ensures StripRight(s) == "" && s != "" ==> IsPythonSpace(s[0])
    decreases |s|
  {
    if s != "" && IsPythonSpace(s[|s| - 1]) {
      StripRightBlank(s[..|s| - 1]);
    }
  }

  lemma {:induction false} StripLeftSolid(s: string)
    ensures StripLeft(s) != "" ==> !IsPythonSpace(StripLeft(s)[0])
  {
    if s != "" { StripLeftSolid(s[1..]); }
  }

  lemma BlankParts(blank: string)
    requires AllBlank(blank) && blank != ""
    ensures IsPythonSpace(blank[|blank| - 1]) && AllBlank(blank[..|blank| - 1])
  {
    var front, last := blank[..|blank| - 1], blank[|blank| - 1];
    assert blank == front + [last];
    StripLeftSolid(blank);
    StripRightBlank(StripLeft(blank));
    StripLeftAppend(front, last);
    assert StripLeft(blank) == "";
    assert StripRight("") == "";
  }

  /** A stream no audit halted releases all the model's text, up to white space at the end. */
  lemma UnhaltedReleasesAll(chunks: seq<Chunk>, audit: Auditor)
    requires !Halted(Stream(chunks, Fresh, audit))
    ensures StripRight(Released(Stream(chunks, Fresh, audit))) == StripRight(Received(chunks))
  {
    Units(Received(chunks), []);
    var rest, failed := StreamIsSound(chunks, Fresh, audit);
    BlankTail(Released(Stream(chunks, Fresh, audit)), rest);
  }

  /** When no audit halts either of two streams of the same text, how the text was chunked only decides
      where it is cut into frames: the released texts are equal up to white space at the end. */
  lemma ChunkingDoesNotMatter(a: seq<Chunk>, b: seq<Chunk>, audit: Auditor)
    requires Received(a) == Received(b)
    requires !Halted(Stream(a, Fresh, audit)) && !Halted(Stream(b, Fresh, audit))
    ensures StripRight(Released(Stream(a, Fresh, audit))) == StripRight(Released(Stream(b, Fresh, audit)))
    ensures StripRight(Released(Stream(a, Fresh, audit))) == StripRight(Received(a))
  {
    UnhaltedReleasesAll(a, audit);
    UnhaltedReleasesAll(b, audit);
  }
}
