/** The reconciliation step of the recognition worker: after each block fed
    to the recogniser, the outcome (an utterance boundary with its final
    text, or no boundary with the current partial text) updates the running
    transcript, the debounce memory of the last partial, the text shown to
    the user and the speech queue.

    Time is an abstract clock in whole milliseconds counted from
    `DateTime.MinValue`, so the initial "last partial time" is 0. The clock
    is not assumed to be monotonic: a clock that steps back only makes the
    elapsed time negative, which never passes the debounce test. */
module Recognition {
  import opened Wrappers
  import opened Text
  import opened TtsQueue
  import opened VoskResult

  /** Milliseconds within which a repeated partial is suppressed. */
  const DebounceMs: int := 400
  /** A published partial is handed to speech only when longer than this. */
  const MinSpokenPartial: nat := 3
  /** `DateTime.MinValue` on the model clock. */
  const MinTime: int := 0

  /** The worker's memory: the space-joined final transcript, and the last
      partial that was published with the time it was published. */
  datatype RecognitionState = RecognitionState(finalText: string, lastPartial: string, lastPartialTime: int)

  const Initial: RecognitionState := RecognitionState("", "", MinTime)

  /** What the recogniser reported for one block. */
  datatype Outcome = Boundary(text: string) | NoBoundary(partial: string)

  /** One step's effects: the new state, the text posted to the transcript
      view (if any), and the text handed to `EnqueueTts` (if any). */
  datatype StepResult = StepResult(state: RecognitionState, display: Option<string>, spoken: Option<string>)

  /** The outcome read after `AcceptWaveform`: on a boundary the final reply
      is read preferring `text`, otherwise the partial reply is read
      preferring `partial`. An exception from `AcceptWaveform` counts as no
      boundary. */
  function ReadOutcome(accepted: bool, json: string, decoded: Option<JsonObject>): (o: Outcome)
    ensures o.Boundary? <==> accepted
    ensures IsNullOrWhiteSpace(json) || decoded.None? ==> o == (if accepted then Boundary("") else NoBoundary(""))
    ensures !IsNullOrWhiteSpace(json) && decoded.Some? ==>
      var obj := decoded.value;
      && (o.Boundary? && TextKey in obj ==> o.text == obj[TextKey])
      && (o.Boundary? && TextKey !in obj && PartialKey in obj ==> o.text == obj[PartialKey])
      && (o.NoBoundary? && PartialKey in obj ==> o.partial == obj[PartialKey])
      && (o.NoBoundary? && PartialKey !in obj && TextKey in obj ==> o.partial == obj[TextKey])
      && (TextKey !in obj && PartialKey !in obj ==> o == (if accepted then Boundary("") else NoBoundary("")))
  {
    if accepted then Boundary(ParseVoskJson(json, decoded, false))
    else NoBoundary(ParseVoskJson(json, decoded, true))
  }

  /** Whichever way the reply is read, the text of the outcome is never
      invented: it is empty or the value of one of the reply's two keys. */
  lemma OutcomeComesFromReply(accepted: bool, json: string, decoded: Option<JsonObject>)
    ensures var o := ReadOutcome(accepted, json, decoded);
      var t := if o.Boundary? then o.text else o.partial;
      t == "" || (decoded.Some? && ((PartialKey in decoded.value && t == decoded.value[PartialKey])
                                    || (TextKey in decoded.value && t == decoded.value[TextKey])))
  {
    ResultComesFromReply(json, decoded, !accepted);
  }

  /** A final text appended to the transcript: the text alone on an empty
      transcript, otherwise after a single separating space. */
  function AppendFinal(transcript: string, text: string): (r: string)
    ensures transcript <= r
    ensures transcript == "" ==> r == text
    ensures transcript != "" ==> r[|transcript|..] == " " + text
  {
    if transcript == "" then text else transcript + " " + text
  }

  /** The view shown for a published partial: the partial alone on an empty
      transcript, otherwise the transcript followed by the partial in
      brackets. */
  function ShowPartial(transcript: string, partial: string): (r: string)
    ensures transcript == "" ==> r == partial
    ensures transcript != "" ==> transcript <= r && r[|transcript|..] == " [" + partial + "]"
  {
    if transcript == "" then partial else transcript + " [" + partial + "]"
  }

  /** The debounce test: a partial is published when it differs from the
      last one published or strictly more than 400 ms have passed. */
  predicate PassesDebounce(s: RecognitionState, partial: string, now: int) {
    partial != s.lastPartial || now - s.lastPartialTime > DebounceMs
  }

  /** A partial other than the last one always passes the debounce, and a
      repeat that passes at some time passes at every later time too. */
  lemma DebounceOpensOverTime(s: RecognitionState, partial: string, now: int, later: int)
    requires now <= later
    ensures partial != s.lastPartial ==> PassesDebounce(s, partial, now)
    ensures PassesDebounce(s, partial, now) ==> PassesDebounce(s, partial, later)
  {
  }

  /** The reconciliation step. The final transcript only ever grows, and only
      on a boundary with a non-blank final text, which is also shown and
      spoken. A boundary always forgets the last partial. A non-blank partial
      that passes the debounce is remembered with its time and shown after the
      transcript, and spoken only when longer than three code units; any other
      partial leaves everything as it was. */
  function Step(s: RecognitionState, o: Outcome, now: int): (r: StepResult)
    ensures s.finalText <= r.state.finalText
    ensures o.Boundary? ==> r.state.lastPartial == "" && r.state.lastPartialTime == s.lastPartialTime
    ensures o.Boundary? && IsNullOrWhiteSpace(o.text) ==>
      r.state.finalText == s.finalText && r.display.None? && r.spoken.None?
    ensures o.Boundary? && !IsNullOrWhiteSpace(o.text) ==>
      && r.state.finalText == AppendFinal(s.finalText, o.text)
      && r.display == Some(r.state.finalText)
      && r.spoken == Some(o.text)
    ensures o.NoBoundary? ==> r.state.finalText == s.finalText
    ensures o.NoBoundary? && (IsNullOrWhiteSpace(o.partial) || !PassesDebounce(s, o.partial, now)) ==>
      r == StepResult(s, None, None)
    ensures o.NoBoundary? && !IsNullOrWhiteSpace(o.partial) && PassesDebounce(s, o.partial, now) ==>
      && r.state == RecognitionState(s.finalText, o.partial, now)
      && r.display == Some(ShowPartial(s.finalText, o.partial))
      && (r.spoken.Some? <==> Utf16Length(o.partial) > MinSpokenPartial)
      && (r.spoken.Some? ==> r.spoken.value == o.partial)
  {
    match o
    case Boundary(text) =>
      if !IsNullOrWhiteSpace(text) then
        var transcript := AppendFinal(s.finalText, text);
        StepResult(s.(finalText := transcript, lastPartial := ""), Some(transcript), Some(text))
      else
        StepResult(s.(lastPartial := ""), None, None)
    case NoBoundary(p) =>
      if !IsNullOrWhiteSpace(p) && PassesDebounce(s, p, now) then
        var spoken := if Utf16Length(p) > MinSpokenPartial then Some(p) else None;
        StepResult(s.(lastPartial := p, lastPartialTime := now), Some(ShowPartial(s.finalText, p)), spoken)
      else
        StepResult(s, None, None)
  }

  /** The end of `CleanupAfterStop`, when the disposals before it did not
      throw: the transcript and the last partial are cleared; the time of
      the last partial is kept. */
  function Reset(s: RecognitionState): (r: RecognitionState)
    ensures r.finalText == "" && r.lastPartial == ""
    ensures r.lastPartialTime == s.lastPartialTime
  {
    s.(finalText := "", lastPartial := "")
  }

  // ---------------------------------------------------------------------
  // Whole sessions: the state together with the view and the speech queue.

  /** One recogniser outcome and the clock reading taken for it. */
  datatype Event = Event(outcome: Outcome, now: int)

  /** The worker's state, the text last posted to the transcript view, and
      the speech queue as the recognition worker fills it: every item it has
      handed to `EnqueueTts` and had accepted, in order. The speech worker
      takes items off the head of the live queue concurrently; that is not
      part of a session. */
  datatype Session = Session(rec: RecognitionState, shown: string, queue: seq<string>)

  /** A step applied to a session: a posted text replaces the view and a
      handed text goes through `EnqueueTts`. */
  function Apply(sess: Session, e: Event): Session {
    var r := Step(sess.rec, e.outcome, e.now);
    var shown := match r.display
      case Some(text) => text
      case None => sess.shown;
    Session(r.state, shown, if r.spoken.Some? then Enqueue(sess.queue, r.spoken.value) else sess.queue)
  }

  /** One step never shortens the transcript, and only a boundary changes
      it; the queue keeps its items, gains at most one at its tail, and
      stays well formed. */
  lemma ApplyOnlyAppends(sess: Session, e: Event)
    ensures sess.rec.finalText <= Apply(sess, e).rec.finalText
    ensures Apply(sess, e).rec.finalText != sess.rec.finalText ==> e.outcome.Boundary?
    ensures sess.queue <= Apply(sess, e).queue && |Apply(sess, e).queue| <= |sess.queue| + 1
    ensures WellFormed(sess.queue) ==> WellFormed(Apply(sess, e).queue)
  {
    var r := Step(sess.rec, e.outcome, e.now);
    if r.spoken.Some? && WellFormed(sess.queue) {
      EnqueuePreservesWellFormed(sess.queue, r.spoken.value);
    }
  }

  /** The session after a sequence of events. */
  function Run(sess: Session, events: seq<Event>): Session {
    if events == [] then sess else Apply(Run(sess, events[..|events| - 1]), events[|events| - 1])
  }

  /** Over any run, the transcript and the speech queue only grow at their
      ends, and the queue stays well formed. */
  lemma {:induction false} RunOnlyAppends(sess: Session, events: seq<Event>)
    requires WellFormed(sess.queue)
    ensures sess.rec.finalText <= Run(sess, events).rec.finalText
    ensures sess.queue <= Run(sess, events).queue
    ensures WellFormed(Run(sess, events).queue)
    decreases |events|
  {
    if events != [] {
      var mid := Run(sess, events[..|events| - 1]);
      RunOnlyAppends(sess, events[..|events| - 1]);
      ApplyOnlyAppends(mid, events[|events| - 1]);
    }
  }

  /** Reference definition: `parts` joined with single spaces. */
  function Join(parts: seq<string>): string {
    if parts == [] then ""
    else if |parts| == 1 then parts[0]
    else Join(parts[..|parts| - 1]) + " " + parts[|parts| - 1]
  }

  /** The non-blank final texts of a run, in order. */
  function Finals(events: seq<Event>): (fs: seq<string>)
    ensures forall k :: 0 <= k < |fs| ==> fs[k] != []
  {
    if events == [] then []
    else
      var o := events[|events| - 1].outcome;
      Finals(events[..|events| - 1]) + (if o.Boundary? && !IsNullOrWhiteSpace(o.text) then [o.text] else [])
  }

  /** Joining non-empty parts gives the empty string only for no parts. */
  lemma JoinEmptyOnlyForNone(parts: seq<string>)
    requires forall k :: 0 <= k < |parts| ==> parts[k] != []
    ensures Join(parts) == "" <==> parts == []
  {
    if |parts| > 1 {
      assert |Join(parts)| > 0;
    }
  }

  /** From an empty transcript, the transcript of a run is exactly its
      non-blank final texts joined by single spaces: partials never enter it
      and blank finals leave no trace. */
  lemma {:induction false} TranscriptIsJoinOfFinals(sess: Session, events: seq<Event>)
    requires sess.rec.finalText == ""
    ensures Run(sess, events).rec.finalText == Join(Finals(events))
    decreases |events|
  {
    if events != [] {
      var init := events[..|events| - 1];
      var e := events[|events| - 1];
      var fs := Finals(init);
      var prev := Run(sess, init);
      TranscriptIsJoinOfFinals(sess, init);
      assert Run(sess, events) == Apply(prev, e);
      ApplyTranscript(prev, e);
      if e.outcome.Boundary? && !IsNullOrWhiteSpace(e.outcome.text) {
        var t := e.outcome.text;
        assert Finals(events) == fs + [t];
        JoinEmptyOnlyForNone(fs);
        JoinSnoc(fs, t);
      } else {
        assert Finals(events) == fs;
      }
    }
  }

  /** The transcript after one step of a session. */
  lemma ApplyTranscript(sess: Session, e: Event)
    ensures Apply(sess, e).rec.finalText
      == if e.outcome.Boundary? && !IsNullOrWhiteSpace(e.outcome.text)
         then AppendFinal(sess.rec.finalText, e.outcome.text)
         else sess.rec.finalText
  {
  }

  /** Joining one more part adds a space and the part. */
  lemma JoinSnoc(parts: seq<string>, t: string)
    ensures parts == [] ==> Join(parts + [t]) == t
    ensures parts != [] ==> Join(parts + [t]) == Join(parts) + " " + t
  {
    assert (parts + [t])[..|parts|] == parts;
  }

  /** Only boundaries change the transcript: a run of partials alone leaves
      it as it was. */
  lemma {:induction false} PartialsKeepTranscript(sess: Session, events: seq<Event>)
    requires forall k :: 0 <= k < |events| ==> events[k].outcome.NoBoundary?
    ensures Run(sess, events).rec.finalText == sess.rec.finalText
    decreases |events|
  {
    if events != [] {
      PartialsKeepTranscript(sess, events[..|events| - 1]);
      assert events[|events| - 1].outcome.NoBoundary?;
    }
  }

  /** A published partial of at most three code units reaches the view but
      never the speech queue. */
  lemma ShortPartialNotSpoken(sess: Session, p: string, now: int)
    requires !IsNullOrWhiteSpace(p) && PassesDebounce(sess.rec, p, now)
    requires Utf16Length(p) <= MinSpokenPartial
    ensures Apply(sess, Event(NoBoundary(p), now)).shown == ShowPartial(sess.rec.finalText, p)
    ensures Apply(sess, Event(NoBoundary(p), now)).queue == sess.queue
  {
  }

  /** Debounce: once a partial is published at `t1`, the same partial at
      `t2` is suppressed exactly when at most 400 ms have passed, and
      published again otherwise. */
  lemma RepeatedPartialDebounced(s: RecognitionState, p: string, t1: int, t2: int)
    requires !IsNullOrWhiteSpace(p) && PassesDebounce(s, p, t1)
    ensures var s1 := Step(s, NoBoundary(p), t1).state;
      && (t2 - t1 <= DebounceMs ==> Step(s1, NoBoundary(p), t2) == StepResult(s1, None, None))
      && (t2 - t1 > DebounceMs ==> Step(s1, NoBoundary(p), t2).display.Some?)
  {
  }

  /** After a boundary any non-blank partial is published, even one equal to
      the partial published just before it. */
  lemma BoundaryReopensDebounce(s: RecognitionState, text: string, p: string, t1: int, t2: int)
    requires !IsNullOrWhiteSpace(p)
    ensures Step(Step(s, Boundary(text), t1).state, NoBoundary(p), t2).display.Some?
  {
    assert p != "";
  }

  /** After `CleanupAfterStop` the next non-blank final text is the whole
      transcript. */
  lemma ResetStartsFreshTranscript(s: RecognitionState, text: string, now: int)
    requires !IsNullOrWhiteSpace(text)
    ensures Step(Reset(s), Boundary(text), now).state.finalText == text
  {
  }

  /** Two already-trimmed final texts in a row on a fresh session: the
      transcript and the view are the two joined by a space, and each text
      is queued once, in order. */
  lemma TwoFinalsOnFreshSession(a: string, b: string, t1: int, t2: int)
    requires IsTrimmed(a) && |a| >= MinQueuedLength
    requires IsTrimmed(b) && |b| >= MinQueuedLength
    ensures var sess := Run(Session(Initial, "", []), [Event(Boundary(a), t1), Event(Boundary(b), t2)]);
      && sess.rec.finalText == a + " " + b
      && sess.shown == a + " " + b
      && sess.queue == [a, b]
  {
    EnqueueTrimmed([], a);
    EnqueueTrimmed([a], b);
    assert !IsNullOrWhiteSpace(a) by { assert !IsWhiteSpace(a[0]); }
    assert !IsNullOrWhiteSpace(b) by { assert !IsWhiteSpace(b[0]); }
    var e1, e2 := Event(Boundary(a), t1), Event(Boundary(b), t2);
    var s0 := Session(Initial, "", []);
    var s1 := Apply(s0, e1);
    assert s1 == Session(RecognitionState(a, "", MinTime), a, [a]);
    var evs := [e1, e2];
    assert evs[..1] == [e1];
    assert Run(s0, [e1]) == s1;
    assert Run(s0, evs) == Apply(s1, e2);
  }

  /** A published partial longer than three code units goes through the
      speech filter: when admitted, its trimmed form joins the queue's tail. */
  lemma SpokenPartialQueued(sess: Session, p: string, now: int)
    requires !IsNullOrWhiteSpace(p) && PassesDebounce(sess.rec, p, now)
    requires Utf16Length(p) > MinSpokenPartial && Admits(p)
    ensures Apply(sess, Event(NoBoundary(p), now)).queue == sess.queue + [Trim(p)]
  {
    assert Step(sess.rec, NoBoundary(p), now).spoken == Some(p);
    EnqueueShape(sess.queue, p);
  }

  /** An admitted final text joins the queue's tail, trimmed. */
  lemma FinalQueued(sess: Session, text: string, now: int)
    requires Admits(text)
    ensures Apply(sess, Event(Boundary(text), now)).queue == sess.queue + [Trim(text)]
  {
    assert Step(sess.rec, Boundary(text), now).spoken == Some(text);
    EnqueueShape(sess.queue, text);
  }

  /** A partial long enough to be spoken that is then confirmed as the final
      text is queued twice: once as a partial and once as the final text. */
  lemma ConfirmedPartialSpokenTwice(sess: Session, p: string, t1: int, t2: int)
    requires !IsNullOrWhiteSpace(p) && PassesDebounce(sess.rec, p, t1)
    requires Utf16Length(p) > MinSpokenPartial && Admits(p)
    ensures Apply(Apply(sess, Event(NoBoundary(p), t1)), Event(Boundary(p), t2)).queue
        == sess.queue + [Trim(p), Trim(p)]
  {
    var s1 := Apply(sess, Event(NoBoundary(p), t1));
    var s2 := Apply(s1, Event(Boundary(p), t2));
    var item := Trim(p);
    SpokenPartialQueued(sess, p, t1);
    FinalQueued(s1, p, t2);
    AppendedTwice(sess.queue, s1.queue, s2.queue, item);
  }

  /** Two single appends of the same item make one double append. */
  lemma AppendedTwice(q0: seq<string>, q1: seq<string>, q2: seq<string>, item: string)
    requires q1 == q0 + [item] && q2 == q1 + [item]
    ensures q2 == q0 + [item, item]
  {
    assert q0 + [item] + [item] == q0 + [item, item];
  }
}
