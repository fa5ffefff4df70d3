/** The head of the speech worker's loop: take the oldest queued text and
    resolve the voice from the language and gender selected at that moment.
    The synthesis process and playback that follow are outside the model. */
module SpeechWorker {
  import opened Wrappers
  import opened TtsQueue
  import opened Voice

  /** A text about to be synthesised, with the voice argument it will use. */
  datatype Utterance = Utterance(text: string, voice: string)

  /** One turn of the worker: nothing on an empty queue; otherwise the
      oldest text, voiced by the current selection, and the rest of the queue. */
  function TakeNext(q: seq<string>, languageLabel: string, genderLabel: string): (r: (Option<Utterance>, seq<string>))
    ensures q == [] ==> r.0.None? && r.1 == []
    ensures q != [] ==> && r.0.Some? && r.0.value.text == q[0] && [q[0]] + r.1 == q
                        && r.0.value.voice == VoiceArg(languageLabel, genderLabel)
  {
    match Dequeue(q).0
    case None => (None, [])
    case Some(text) => (Some(Utterance(text, VoiceArg(languageLabel, genderLabel))), Dequeue(q).1)
  }

  /** The voice is not stored with the text: the same queue taken under two
      selections yields the same text, and the same voice exactly when the
      two selections agree on language code and on the female choice. */
  lemma VoiceFollowsCurrentSelection(q: seq<string>, l1: string, g1: string, l2: string, g2: string)
    requires q != []
    ensures TakeNext(q, l1, g1).0.value.text == TakeNext(q, l2, g2).0.value.text
    ensures TakeNext(q, l1, g1).1 == TakeNext(q, l2, g2).1
    ensures TakeNext(q, l1, g1).0.value.voice == TakeNext(q, l2, g2).0.value.voice
        <==> LanguageCode(l1) == LanguageCode(l2) && (g1 == FemaleLabel <==> g2 == FemaleLabel)
  {
    VoiceArgDistinguishes(l1, g1, l2, g2);
  }
}
