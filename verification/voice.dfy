/** The two label-driven choices of the pipeline: the recognition model
    directory picked when processing starts, and the synthesis voice picked
    each time the speech worker takes an item off the queue. Both go through
    the same language decision: a label starting with "Рус" means Russian. */
module Voice {
  import opened Text

  const RussianPrefix: string := "Рус"
  const FemaleLabel: string := "Женский"

  const Ru: string := "ru"
  const En: string := "en"

  const RuModel: string := "vosk-model-small-ru-0.22"
  const EnModel: string := "vosk-model-small-en-us-0.15"

  /** The language code chosen from the language label. */
  function LanguageCode(languageLabel: string): (code: string)
    ensures code == Ru || code == En
    ensures code == Ru <==> StartsWith(languageLabel, RussianPrefix)
  {
    if StartsWith(languageLabel, RussianPrefix) then Ru else En
  }

  /** The model directory name for a language code: the Russian model for
      "ru" and the US English model for anything else. */
  function ModelName(code: string): (name: string)
    ensures name == RuModel <==> code == Ru
    ensures name == EnModel <==> code != Ru
  {
    if code == Ru then RuModel else EnModel
  }

  /** The voice argument for the synthesis process: language code, a plus
      sign, and a female or male variant chosen by the gender label. */
  function VoiceArg(languageLabel: string, genderLabel: string): (v: string)
    ensures v in {"ru+f3", "ru+m1", "en+f3", "en+m2"}
    ensures |v| == 5 && v[..2] == LanguageCode(languageLabel) && v[2] == '+'
    ensures v[3] == 'f' <==> genderLabel == FemaleLabel
  {
    var female := genderLabel == FemaleLabel;
    if LanguageCode(languageLabel) == Ru then (if female then "ru+f3" else "ru+m1")
    else (if female then "en+f3" else "en+m2")
  }

  /** For one language label, the voice is Russian exactly when the Russian
      model is chosen. The model is chosen once at start and the voice at
      every dequeue, so a language change mid-session can still pair an
      English voice with the Russian model. */
  lemma VoiceAgreesWithModel(languageLabel: string, genderLabel: string)
    ensures VoiceArg(languageLabel, genderLabel)[..2] == Ru
        <==> ModelName(LanguageCode(languageLabel)) == RuModel
  {
  }

  /** Different language codes or genders never share a voice. */
  lemma VoiceArgDistinguishes(l1: string, g1: string, l2: string, g2: string)
    ensures VoiceArg(l1, g1) == VoiceArg(l2, g2)
        <==> LanguageCode(l1) == LanguageCode(l2) && (g1 == FemaleLabel <==> g2 == FemaleLabel)
  {
    var v1, v2 := VoiceArg(l1, g1), VoiceArg(l2, g2);
    if v1 == v2 {
      assert v1[..2] == v2[..2] && v1[3] == v2[3];
    }
  }

  /** The labels the program offers select the expected voices. */
  lemma OfferedLabels()
    ensures VoiceArg("Русский", "Женский") == "ru+f3"
    ensures VoiceArg("Русский", "Мужской") == "ru+m1"
    ensures VoiceArg("English", "Женский") == "en+f3"
    ensures VoiceArg("English", "Мужской") == "en+m2"
    ensures ModelName(LanguageCode("Русский")) == RuModel
    ensures ModelName(LanguageCode("English")) == EnModel
  {
    assert StartsWith("Русский", RussianPrefix);
    assert !StartsWith("English", RussianPrefix) by {
      assert "English"[0] != RussianPrefix[0];
    }
  }
}
