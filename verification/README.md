# Voice relay: the recognition and speech decision core

This project models the decision logic of `MainViewModel`, the view model of a
desktop "voice relay". The relay captures the microphone, streams it to a Vosk
speech recogniser, and speaks the recognised text again through espeak-ng.
Audio capture, threads and external processes surround a small sequential
core, and only that core is modelled, as pure Dafny functions:

- **Reconciliation step** (`Recognition`). After each audio block, the
  recogniser reports one of two outcomes: an utterance boundary with its final
  text, or no boundary with the current partial text. The step updates four
  things: the space-joined final transcript, the debounce memory (last
  published partial and the time it was published), the text posted to the
  transcript view, and the speech queue. Time is an integer clock in
  milliseconds counted from `DateTime.MinValue`.
- **Speech queue** (`TtsQueue`). `EnqueueTts` drops blank texts and texts
  that trim to fewer than two UTF-16 code units. Accepted texts are trimmed
  and go on a FIFO. The speech worker takes them off one at a time
  (`SpeechWorker`) and picks the voice from the current language and gender
  selection.
- **Recogniser reply** (`VoskResult`). `ParseVoskJson` chooses between the
  `partial` and `text` fields of the decoded JSON object.
- **Voice and model selection** (`Voice`). These map the language and gender
  labels to an espeak-ng voice argument and a Vosk model directory name.
- **PCM16 packing** (`Pcm16`). Each quantised 16-bit sample becomes two bytes,
  low byte first. The model proves that reading the bytes back as signed
  little-endian values gives the samples again.
- **String primitives** (`Text`). .NET `char.IsWhiteSpace`, `string.Trim()`
  and `string.Length` (in UTF-16 code units), as the code above uses them.

Three behaviours of the code worth noting:

- The debounce lets a repeated partial through only when strictly more than
  400 ms have passed.
- A boundary clears the last partial even when its final text is blank.
- When `CleanupAfterStop` runs to the end, it clears the transcript and the
  last partial. It never clears the time of the last partial or the speech
  queue. If an earlier disposal in the same `try` throws, or if stopping the
  capture throws first, neither field is cleared.

## Model

| member | source | states |
|---|---|---|
| Text.WhiteSpaceShape | ViewModels/MainViewModel.cs:506 | Every white-space character lies at or below U+3000, so in the Basic Multilingual Plane. Among ASCII characters, exactly the space and TAB through CR are white space. |
| Text.BlankIffLeadReachesEnd | ViewModels/MainViewModel.cs:523 | `IsNullOrWhiteSpace` holds exactly when skipping the leading white space reaches the end of the string. Equivalently, the string trims to zero code units. |
| Text.Trim | ViewModels/MainViewModel.cs:701-702 | The result is a contiguous slice of the text. Everything cut off before and after it is white space, and a non-empty result starts and ends with non-white space. The result is empty exactly when the text is blank. |
| Text.TrimFixesTrimmed | ViewModels/MainViewModel.cs:702 | A string is unchanged by `Trim` exactly when it has no white space at either end. |
| Text.TrimIdempotent | ViewModels/MainViewModel.cs:702 | Trimming twice is the same as trimming once, so a queued text is already trimmed. |
| Text.Utf16Length | ViewModels/MainViewModel.cs:536 | `Length` counts UTF-16 code units. It lies between the character count and twice that, and equals the character count exactly when every character is in the Basic Multilingual Plane. |
| TtsQueue.AdmitsExactlyQueueable | ViewModels/MainViewModel.cs:700-701 | The filter of `EnqueueTts` admits a text exactly when its trimmed form is trimmed and at least two code units long. It admits every text that is already queueable. |
| TtsQueue.Enqueue | ViewModels/MainViewModel.cs:698-703 | The queue gains at most one item, at the tail, and the existing items are untouched. It gains one exactly when the text is not blank and trims to at least two code units. The new item is the trimmed text, which is itself trimmed and at least two code units long. |
| TtsQueue.EnqueueTrimmed | ViewModels/MainViewModel.cs:698-703 | A text that is already trimmed and at least two characters long is queued exactly as given. |
| TtsQueue.BlankTestRedundant | ViewModels/MainViewModel.cs:700-701 | The blank-text test adds nothing: a text is admitted exactly when its trimmed form has at least two code units. |
| TtsQueue.EnqueuePreservesWellFormed | ViewModels/MainViewModel.cs:698-703 | If every queued item is trimmed and at least two code units long, that still holds after an enqueue. |
| TtsQueue.Dequeue | ViewModels/MainViewModel.cs:576 | On an empty queue there is no item. Otherwise the item is the oldest one, and that item followed by the remaining queue is the original queue. |
| TtsQueue.DequeueEnqueueCommute | ViewModels/MainViewModel.cs:576 | FIFO law: on a non-empty queue, enqueue-then-dequeue returns the same item as dequeue-first, and leaves the same queue as dequeue-then-enqueue. |
| TtsQueue.DequeuePreservesWellFormed | ViewModels/MainViewModel.cs:576 | Dequeueing keeps the queue well formed, and the item taken is trimmed and at least two code units long. |
| TtsQueue.EnqueueAllAppends | ViewModels/MainViewModel.cs:698-703 | A sequence of enqueues appends exactly the admitted texts, trimmed and in call order, behind the existing items. The result is proved equal to an independent filter-map definition. |
| TtsQueue.AdmittedWellFormed | ViewModels/MainViewModel.cs:698-703 | Every text admitted by the filter is trimmed and at least two code units long. |
| TtsQueue.Drain | ViewModels/MainViewModel.cs:574-576 | Taking items off until the queue is empty returns the queue's contents in order. |
| TtsQueue.EnqueueThenDrain | ViewModels/MainViewModel.cs:576 | Playback order is enqueue order: draining a queue built from empty returns exactly the admitted texts in call order, all well formed. |
| VoskResult.ParseVoskJson | ViewModels/MainViewModel.cs:706-724 | A blank reply or a decode failure gives "". Otherwise, when `partial` is preferred and present, it wins. Without that preference, `text` wins when present. A reply with only one of the two keys gives that key's value, and a reply with neither gives "". |
| VoskResult.ResultComesFromReply | ViewModels/MainViewModel.cs:706-724 | The result is never invented: it is "" or the value of the `partial` or `text` key of the decoded reply. |
| VoskResult.PreferenceMattersOnlyWithBothKeys | ViewModels/MainViewModel.cs:712-717 | The preference flag changes the result exactly when the reply decodes and has both keys with different values. |
| Voice.LanguageCode | ViewModels/MainViewModel.cs:179 | The code is "ru" or "en". It is "ru" exactly when the language label starts with "Рус". |
| Voice.ModelName | ViewModels/MainViewModel.cs:180 | The Russian model is chosen exactly for "ru"; the US English model is chosen for every other code. |
| Voice.VoiceArg | ViewModels/MainViewModel.cs:580-582 | The voice is one of ru+f3, ru+m1, en+f3, en+m2. Its first two letters are the language code, and its variant letter is 'f' exactly when the gender label is "Женский". |
| Voice.VoiceAgreesWithModel | ViewModels/MainViewModel.cs:179-180 | For the same language label, the voice is Russian exactly when the Russian model is loaded. |
| Voice.VoiceArgDistinguishes | ViewModels/MainViewModel.cs:580-582 | Two selections get the same voice exactly when they agree on the language code and on whether the gender is female. |
| Voice.OfferedLabels | ViewModels/MainViewModel.cs:27-36 | The four offered label pairs select ru+f3, ru+m1, en+f3 and en+m2, and the two language labels select the Russian and English models. |
| Pcm16.LowByte | ViewModels/MainViewModel.cs:470 | The first byte written for a sample is the low byte of its 16-bit two's-complement pattern. |
| Pcm16.HighByte | ViewModels/MainViewModel.cs:471 | The second byte written for a sample is the high byte of its 16-bit two's-complement pattern. |
| Pcm16.BytesAreMaskAndShift | ViewModels/MainViewModel.cs:470-471 | For every `short` and its 16-bit two's-complement pattern, the integer low and high bytes equal the pattern's `& 0xff` and `(>> 8) & 0xff`. |
| Pcm16.SampleRoundTrip | ViewModels/MainViewModel.cs:470-471 | Reading back a sample's two bytes as a signed little-endian 16-bit value gives the sample. |
| Pcm16.BytePairRoundTrip | ViewModels/MainViewModel.cs:470-471 | Every byte pair is the packing of the sample it decodes to, so packing is a bijection. |
| Pcm16.PackSamples | ViewModels/MainViewModel.cs:463-472 | n samples give exactly 2n bytes. Byte 2i is the low byte of sample i and byte 2i+1 its high byte. Decoding the buffer gives the samples back. |
| Pcm16.DecodePacked | ViewModels/MainViewModel.cs:463-472 | Any buffer laid out pair by pair from the samples decodes to those samples. |
| Recognition.ReadOutcome | ViewModels/MainViewModel.cs:500-522 | The outcome is a boundary exactly when the block was accepted. A blank or undecodable reply gives an empty text. On a boundary the reply's `text` field is used when present, otherwise its `partial` field. Without a boundary, `partial` is used when present, otherwise `text`. A reply with neither key gives an empty text. |
| Recognition.OutcomeComesFromReply | ViewModels/MainViewModel.cs:500-522 | Whether or not the block was accepted, the outcome's text is empty or the value of the reply's `partial` or `text` key. |
| Recognition.DebounceOpensOverTime | ViewModels/MainViewModel.cs:526 | A partial that differs from the last published one always passes the debounce. A repeat that passes at some time also passes at every later time. |
| Recognition.ApplyOnlyAppends | ViewModels/MainViewModel.cs:506-540 | One step applied to the session never shortens the transcript, and only a boundary changes it. The queue of items handed to speech keeps its items, gains at most one at its tail, and stays well formed. |
| Recognition.AppendFinal | ViewModels/MainViewModel.cs:508 | The old transcript is a prefix of the new one. The text stands alone on an empty transcript and otherwise follows exactly one space. |
| Recognition.ShowPartial | ViewModels/MainViewModel.cs:533 | The view is the partial alone on an empty transcript. Otherwise it is the transcript, unchanged as a prefix, followed by " [partial]". |
| Recognition.Step | ViewModels/MainViewModel.cs:500-543 | The transcript always keeps the old one as a prefix. A non-blank final text is appended, shown and handed to speech, and a blank one changes only the last partial. A boundary always clears the last partial and keeps its time. A partial never changes the transcript. A blank or debounced partial leaves state, view and queue untouched. A published partial is remembered with its time, shown after the transcript, and spoken exactly when longer than three code units. |
| Recognition.Reset | ViewModels/MainViewModel.cs:365-366 | When the cleanup reaches these lines, the transcript and the last partial are emptied and the time of the last partial is kept. |
| Recognition.RunOnlyAppends | ViewModels/MainViewModel.cs:506-509 | Over any sequence of steps, the old transcript is a prefix of the new one and the old queue of items handed to speech a prefix of the new one, and that queue stays well formed. |
| Recognition.TranscriptIsJoinOfFinals | ViewModels/MainViewModel.cs:506-508 | From an empty transcript, the transcript after any run is its non-blank final texts joined by single spaces. Partials and blank finals leave no trace. |
| Recognition.PartialsKeepTranscript | ViewModels/MainViewModel.cs:518-543 | A run of partials only leaves the transcript as it was. |
| Recognition.ShortPartialNotSpoken | ViewModels/MainViewModel.cs:531-540 | A published partial of at most three code units is shown but not queued. |
| Recognition.RepeatedPartialDebounced | ViewModels/MainViewModel.cs:523-530 | After a partial is published at t1, the same partial at t2 has no effect when t2 - t1 <= 400 and is published again when t2 - t1 > 400. |
| Recognition.BoundaryReopensDebounce | ViewModels/MainViewModel.cs:516-526 | After any boundary, the next non-blank partial is published, even one equal to the last. |
| Recognition.ResetStartsFreshTranscript | ViewModels/MainViewModel.cs:365-366 | After a stop, the next non-blank final text makes up the whole transcript. |
| Recognition.TwoFinalsOnFreshSession | ViewModels/MainViewModel.cs:506-513 | Two trimmed final texts of at least two characters each, on a fresh session, give the transcript and view "a b" and the queue [a, b]. |
| Recognition.SpokenPartialQueued | ViewModels/MainViewModel.cs:536-538 | A published partial longer than three code units that the speech filter admits joins the tail of the queue, trimmed. |
| Recognition.FinalQueued | ViewModels/MainViewModel.cs:506-509 | A final text that the speech filter admits joins the tail of the queue, trimmed. |
| Recognition.ConfirmedPartialSpokenTwice | ViewModels/MainViewModel.cs:506-540 | A partial that is spoken and then confirmed as the final text goes on the queue twice. |
| SpeechWorker.TakeNext | ViewModels/MainViewModel.cs:576-582 | An empty queue yields nothing. Otherwise the worker gets the oldest text and the rest of the queue, voiced by the selection current at that moment. |
| SpeechWorker.VoiceFollowsCurrentSelection | ViewModels/MainViewModel.cs:580-582 | The voice is not stored with the text. The same queue taken under two selections gives the same text and remaining queue, and the same voice exactly when the selections agree on language code and gender. |

## Left out

- Audio capture, the buffered wave provider and its overflow policy, stereo-to-mono mixing and resampling: these are audio-library code, and the arithmetic is floating point.
- Clamping and scaling floating-point samples to `short`, and the peak-amplitude silence warning: these are floating-point numerics. `Pcm16` starts from the quantised sample.
- The per-cycle block size (`TARGET_SR / (int)(TARGET_SR / 100 * 1.25)`, 80 samples at 16 kHz): it only sizes the read buffer, and the decisions modelled here do not depend on it.
- The Vosk model, the recogniser, `AcceptWaveform` and the JSON decoder are foreign calls. They appear only as the `accepted` flag, the reply text and its decoded key map (`None` when decoding throws).
- The espeak-ng process, WAV decoding, playback, the PATH search, and the skipping of an utterance whose synthesis fails: these are process and device I/O. `Drain` gives the order texts are taken off the queue; what is actually heard is a subsequence of that.
- Status messages (`PostStatus`) and `Debug.WriteLine`: these are logging.
- The UI dispatcher: the program posts closures that read `_finalRecognizedText` when the UI thread runs them. The model computes the view text at step time instead. The two can differ around a stop: a post still pending after `CleanupAfterStop` shows "" (boundary) or the bare partial (partial), while the model leaves the view unchanged on a stop.
- Threads, run flags, joins, sleeps and the start/stop lifecycle: these are concurrency and UI marshalling. Only the state reset of `CleanupAfterStop` is modelled. A session's `queue` is the sequence of items the recognition worker has handed to `EnqueueTts` and had accepted; the speech worker's concurrent `TryDequeue` takes items off the head of the live queue, so "the queue only grows" holds of that sequence, not of the live queue at any moment.
- Device enumeration, folder opening, the debug WAV dump, the WAV self-test and `Dispose`: these are I/O.
- Recognition.Step: the clock has whole-millisecond resolution, while `TotalMilliseconds` is fractional. A gap between 400 and 401 ms passes the debounce in the program but is rounded in the model.
- Voice.LanguageCode: `StartsWith("Рус")` is a culture-sensitive comparison in .NET. It is modelled as an ordinal prefix test, which differs only for labels containing characters the culture ignores.
- Recognition.Reset: the reset always happens in the model. In the program it is skipped when `StopRecording` throws, or when an earlier `Dispose` in the same `try` of `CleanupAfterStop` throws. `Recognition.ResetStartsFreshTranscript` holds only when the reset ran.
- Text.IsNullOrWhiteSpace: strings in the modelled code are never null, so the null case is not modelled.
