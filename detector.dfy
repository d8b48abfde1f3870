/**
 * `detectLang`: a local heuristic for Cyrillic text, and the LibreTranslate
 * `/detect` service for everything else. The service's answer is a parameter:
 * `detected` is the `language` field of the first element of its reply when
 * that field is a string, and `None` when the request failed or the field is
 * missing or not a string.
 */
module Detector {
  import opened Wrappers
  import opened Chars

  /** `detectLang(text)`. Cyrillic text is Ukrainian when it holds a letter only
    * Ukrainian has, else Russian when it holds a letter only Russian has, else
    * Ukrainian; other text takes a two-character detected code in lower case,
    * and falls back to English. */
  function DetectLang(text: string, detected: Option<string>): (code: string)
    ensures HasCyrillic(text) && HasUkrainianOnly(text) ==> code == "uk"
    ensures HasCyrillic(text) && !HasUkrainianOnly(text) && HasRussianOnly(text) ==> code == "ru"
    ensures HasCyrillic(text) && !HasUkrainianOnly(text) && !HasRussianOnly(text) ==> code == "uk"
    ensures !HasCyrillic(text) && detected.Some? && |detected.value| == 2 ==> code == Lower(detected.value)
    ensures !HasCyrillic(text) && (detected.None? || |detected.value| != 2) ==> code == "en"
  {
    if HasCyrillic(text) then
      if HasUkrainianOnly(text) then "uk"
      else if HasRussianOnly(text) then "ru"
      else "uk"
    else if detected.Some? && |detected.value| == 2 then Lower(detected.value)
    else "en"
  }

  /** Every code `detectLang` returns is two characters long and in lower case. */
  lemma DetectedCodeIsLowerPair(text: string, detected: Option<string>)
    ensures |DetectLang(text, detected)| == 2
    ensures IsLowerCase(DetectLang(text, detected))
  {
    var code := DetectLang(text, detected);
    if !HasCyrillic(text) && detected.Some? && |detected.value| == 2 {
      LowerIsLowerCase(detected.value);
    } else {
      assert code == "uk" || code == "ru" || code == "en";
      assert Lower("uk") == "uk" && Lower("ru") == "ru" && Lower("en") == "en";
    }
  }

  /** The answer of the detection service is ignored for text with Cyrillic
    * letters; for text without them it is all that counts: two such texts
    * with the same answer get the same code. */
  lemma DetectorConsultedOnlyWithoutCyrillic(text: string, other: string, d1: Option<string>, d2: Option<string>)
    ensures HasCyrillic(text) ==> DetectLang(text, d1) == DetectLang(text, d2)
    ensures !HasCyrillic(text) && !HasCyrillic(other) ==> DetectLang(text, d1) == DetectLang(other, d1)
  {
  }

  /** Text with Cyrillic letters is always taken for Ukrainian or Russian, and
    * for Russian exactly when it holds a Russian-only letter and no
    * Ukrainian-only letter. */
  lemma CyrillicIsUkrainianOrRussian(text: string, detected: Option<string>)
    requires HasCyrillic(text)
    ensures DetectLang(text, detected) == "uk" || DetectLang(text, detected) == "ru"
    ensures DetectLang(text, detected) == "ru" <==> !HasUkrainianOnly(text) && HasRussianOnly(text)
  {
  }

  /** Once `normalizeMixed` has run, ъ, ы and э are gone, so Cyrillic text is
    * taken for Russian only when it holds Ё or ё. */
  lemma RussianAfterNormalizingNeedsYo(text: string, detected: Option<string>)
    requires HasCyrillic(text)
    requires forall i :: 0 <= i < |text| ==> text[i] !in "ыЫэЭъЪ"
    ensures DetectLang(text, detected) == "ru" <==>
      !HasUkrainianOnly(text) && exists i :: 0 <= i < |text| && (text[i] == 'Ё' || text[i] == 'ё')
  {
    if exists i :: 0 <= i < |text| && (text[i] == 'Ё' || text[i] == 'ё') {
      var i :| 0 <= i < |text| && (text[i] == 'Ё' || text[i] == 'ё');
      assert IsRussianOnly(text[i]);
    }
    if HasRussianOnly(text) {
      var i :| 0 <= i < |text| && IsRussianOnly(text[i]);
      assert text[i] !in "ыЫэЭъЪ";
      assert text[i] == 'Ё' || text[i] == 'ё';
    }
  }

  /** The end-to-end example: "привыт" is normalised to "привит", which has
    * only letters Ukrainian and Russian share, and is taken for Ukrainian. */
  lemma SharedLettersAreUkrainian(detected: Option<string>)
    ensures DetectLang("привит", detected) == "uk"
  {
    assert IsCyrillic("привит"[0]);
    assert !HasUkrainianOnly("привит") && !HasRussianOnly("привит");
  }
}
