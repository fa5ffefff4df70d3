/** The speech queue: `EnqueueTts` filters and trims text before putting it
    on a FIFO that the speech worker drains one item at a time. The
    concurrent queue is modelled as a sequence whose head is the oldest item. */
module TtsQueue {
  import opened Wrappers
  import opened Text

  /** Fewest UTF-16 code units a trimmed text needs to be queued. */
  const MinQueuedLength: nat := 2

  /** The filter of `EnqueueTts`: the text is not blank and its trimmed form
      is at least two code units long. */
  predicate Admits(text: string) {
    !IsNullOrWhiteSpace(text) && Utf16Length(Trim(text)) >= MinQueuedLength
  }

  /** What every item on the queue looks like: trimmed and at least two code
      units long. */
  predicate IsQueueable(item: string) {
    IsTrimmed(item) && Utf16Length(item) >= MinQueuedLength
  }

  /** Every item of the queue is queueable. */
  predicate WellFormed(q: seq<string>) {
    forall k :: 0 <= k < |q| ==> IsQueueable(q[k])
  }

  /** `EnqueueTts`: the queue grows by at most one item, at the tail, the
      items already there are untouched, and the new item is the trimmed
      text, which is itself queueable. */
  function Enqueue(q: seq<string>, text: string): (q': seq<string>)
    ensures |q| <= |q'| <= |q| + 1
    ensures q'[..|q|] == q
    ensures |q'| == |q| + 1 <==> Admits(text)
    ensures |q'| == |q| + 1 ==> q'[|q|] == Trim(text) && IsQueueable(q'[|q|])
  {
    if IsNullOrWhiteSpace(text) then q
    else if Utf16Length(Trim(text)) < MinQueuedLength then q
    else
      TrimFixesTrimmed(Trim(text));
      TrimIdempotent(text);
      q + [Trim(text)]
  }

  /** The two possible effects of `Enqueue`, in one equation. */
  lemma EnqueueShape(q: seq<string>, text: string)
    ensures Enqueue(q, text) == if Admits(text) then q + [Trim(text)] else q
  {
    var q' := Enqueue(q, text);
    assert q'[..|q|] == q;
  }

  /** A text that is already trimmed and long enough is queued unchanged. */
  lemma EnqueueTrimmed(q: seq<string>, text: string)
    requires IsTrimmed(text) && |text| >= MinQueuedLength
    ensures Enqueue(q, text) == q + [text]
  {
    TrimFixesTrimmed(text);
    assert !IsWhiteSpace(text[0]);
  }

  /** The blank-text test of `EnqueueTts` is subsumed by the length test:
      a blank text trims to the empty string. */
  lemma BlankTestRedundant(text: string)
    ensures Admits(text) <==> Utf16Length(Trim(text)) >= MinQueuedLength
  {
  }

  /** The filter admits a text exactly when its trimmed form is queueable,
      and it admits every text that is queueable as it stands. */
  lemma AdmitsExactlyQueueable(text: string)
    ensures Admits(text) <==> IsQueueable(Trim(text))
    ensures IsQueueable(text) ==> Admits(text)
  {
    TrimIdempotent(text);
    TrimFixesTrimmed(Trim(text));
    TrimFixesTrimmed(text);
  }

  /** Enqueueing keeps the queue well formed. */
  lemma EnqueuePreservesWellFormed(q: seq<string>, text: string)
    requires WellFormed(q)
    ensures WellFormed(Enqueue(q, text))
  {
    var q' := Enqueue(q, text);
    forall k | 0 <= k < |q'| ensures IsQueueable(q'[k]) {
      if k < |q| {
        assert q'[k] == q'[..|q|][k];
      }
    }
  }

  /** `TryDequeue`: `None` on an empty queue, else the oldest item and the
      queue without it. */
  function Dequeue(q: seq<string>): (r: (Option<string>, seq<string>))
    ensures q == [] ==> r.0 == None && r.1 == []
    ensures q != [] ==> r.0 == Some(q[0]) && [q[0]] + r.1 == q
  {
    if q == [] then (None, []) else (Some(q[0]), q[1..])
  }

  /** FIFO law: on a non-empty queue, enqueueing and then dequeueing yields
      the same item as dequeueing first, and the two orders leave the same
      queue behind. */
  lemma DequeueEnqueueCommute(q: seq<string>, text: string)
    requires q != []
    ensures Dequeue(Enqueue(q, text)).0 == Dequeue(q).0
    ensures Dequeue(Enqueue(q, text)).1 == Enqueue(Dequeue(q).1, text)
  {
    EnqueueShape(q, text);
    EnqueueShape(q[1..], text);
    if Admits(text) {
      assert (q + [Trim(text)])[1..] == q[1..] + [Trim(text)];
    }
  }

  /** Dequeueing keeps the queue well formed. */
  lemma DequeuePreservesWellFormed(q: seq<string>)
    requires WellFormed(q)
    ensures WellFormed(Dequeue(q).1)
    ensures Dequeue(q).0.Some? ==> IsQueueable(Dequeue(q).0.value)
  {
  }

  /** Reference definition: the items a sequence of `EnqueueTts` calls puts
      on the queue, in call order. */
  function Admitted(texts: seq<string>): seq<string> {
    if texts == [] then []
    else
      var last := texts[|texts| - 1];
      Admitted(texts[..|texts| - 1]) + (if Admits(last) then [Trim(last)] else [])
  }

  /** The queue after a sequence of `EnqueueTts` calls. */
  function EnqueueAll(q: seq<string>, texts: seq<string>): seq<string> {
    if texts == [] then q else Enqueue(EnqueueAll(q, texts[..|texts| - 1]), texts[|texts| - 1])
  }

  /** A run of enqueues appends exactly the admitted texts, trimmed and in
      call order, behind the items already queued. */
  lemma {:induction false} EnqueueAllAppends(q: seq<string>, texts: seq<string>)
    ensures EnqueueAll(q, texts) == q + Admitted(texts)
    decreases |texts|
  {
    if texts != [] {
      var init := texts[..|texts| - 1];
      var last := texts[|texts| - 1];
      EnqueueAllAppends(q, init);
      var before := EnqueueAll(q, init);
      var after := Enqueue(before, last);
      if Admits(last) {
        assert after == before + [Trim(last)] by {
          assert after[..|before|] == before;
        }
      }
    }
  }

  /** The speech worker's consumption of the queue: it dequeues until the
      queue is empty and hands each item to synthesis in dequeue order. */
  method Drain(q: seq<string>) returns (spoken: seq<string>)
    ensures spoken == q
  {
    spoken := [];
    var rest := q;
    while true
      invariant spoken + rest == q
      decreases |rest|
    {
      var next := Dequeue(rest);
      if next.0.None? {
        break;
      }
      spoken := spoken + [next.0.value];
      rest := next.1;
    }
  }

  /** Playback order is enqueue order: draining the queue built by a run of
      enqueues from empty speaks exactly the admitted texts, in call order. */
  method EnqueueThenDrain(texts: seq<string>) returns (spoken: seq<string>)
    ensures spoken == Admitted(texts)
    ensures WellFormed(spoken)
  {
    EnqueueAllAppends([], texts);
    AdmittedWellFormed(texts);
    spoken := Drain(EnqueueAll([], texts));
  }

  /** Every admitted text is queueable. */
  lemma {:induction false} AdmittedWellFormed(texts: seq<string>)
    ensures WellFormed(Admitted(texts))
    decreases |texts|
  {
    if texts != [] {
      var init := texts[..|texts| - 1];
      AdmittedWellFormed(init);
      EnqueuePreservesWellFormed(Admitted(init), texts[|texts| - 1]);
      EnqueueAllAppends(Admitted(init), [texts[|texts| - 1]]);
    }
  }
}
